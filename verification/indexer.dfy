/** The artifact indexer: it drives the store, one artifact after another. */
module Indexer {
  import opened Common
  import opened Tables
  import opened StoreModel
  import opened Store
  import opened IndexingModel
  import opened IndexInvariants
  import opened FinishedIndex
  import opened Ids

  datatype Adapters = Adapters(uvm: bool, cocotb: bool, waveforms: bool, assertions: bool, coverage: bool)

  datatype TimedReport = TimedReport(now: string, report: CoverageFile)

  /** The artifacts a scan has found, each list in its sorted order; results are logs and result files. */
  datatype Found = Found(
    results: seq<Step>, waves: seq<WaveFile>, bundles: seq<Bundle>, coverages: seq<TimedReport>, svas: seq<SvaFile>)

  function Enabled(adapters: Adapters): Step -> bool {
    (s: Step) => if s.artifact.UvmArtifact? then adapters.uvm else s.artifact.JunitArtifact? && adapters.cocotb
  }

  function IsLog(): Step -> bool { (s: Step) => s.artifact.UvmArtifact? }

  /** The steps of one phase. */
  function Steps<T>(xs: seq<T>, step: T -> Step): (r: seq<Step>)
    ensures |r| == |xs| && forall i :: 0 <= i < |xs| ==> r[i] == step(xs[i])
  {
    seq(|xs|, i requires 0 <= i < |xs| => step(xs[i]))
  }

  function WaveAsStep(): WaveFile -> Step { (w: WaveFile) => Step("", WaveArtifact(w)) }

  function BundleAsStep(): Bundle -> Step { (b: Bundle) => Step("", BundleArtifact(b)) }

  function CoverageAsStep(): TimedReport -> Step { (c: TimedReport) => Step(c.now, CoverageArtifact(c.report)) }

  function SvaAsStep(): SvaFile -> Step { (s: SvaFile) => Step("", SvaArtifact(s)) }

  function LogAsStep(): Step -> Step {
    (s: Step) => if s.artifact.UvmArtifact? then Step("", LogAssertionsArtifact(s.artifact.log)) else s
  }

  function LogAssertionSteps(results: seq<Step>): seq<Step> { Steps(Filter(results, IsLog()), LogAsStep()) }

  /** Everything after the results: waveforms, assertions, assertions in logs, coverage, assertion status. */
  function Others(adapters: Adapters, found: Found): seq<Step> {
    (if adapters.waveforms then Steps(found.waves, WaveAsStep()) else [])
    + (if adapters.assertions then Steps(found.bundles, BundleAsStep()) else [])
    + (if adapters.assertions && adapters.uvm then LogAssertionSteps(found.results) else [])
    + (if adapters.coverage then Steps(found.coverages, CoverageAsStep()) else [])
    + Steps(found.svas, SvaAsStep())
  }

  function Plan(adapters: Adapters, found: Found): seq<Step> {
    Filter(found.results, Enabled(adapters)) + Others(adapters, found)
  }

  // ---- what a full pass owes to what was found ----

  /** Every enabled artifact is in the index, linked to the test it names there. */
  ghost predicate Delivered(lib: Library, adapters: Adapters, found: Found, d: Db) {
    && (forall s :: s in found.results && s.artifact.UvmArtifact? && adapters.uvm ==>
          ResultHeld(lib, d, s.artifact))
    && (forall s :: s in found.results && s.artifact.JunitArtifact? && adapters.cocotb ==>
          ResultHeld(lib, d, s.artifact))
    && (forall w :: w in found.waves && adapters.waveforms ==> WaveLinked(d, w))
    && (forall b :: b in found.bundles && adapters.assertions ==> BundleLinked(lib, d, b))
    && (forall s :: s in found.results && s.artifact.UvmArtifact? && adapters.assertions && adapters.uvm ==>
          LogLinked(d, s.artifact.log))
    && (forall c :: c in found.coverages && adapters.coverage ==> CoverageLinked(lib, d, c.report))
    && (forall s :: s in found.svas ==> SvaLinked(d, s) && SvaNamed(d, s))
  }

  /** What is switched off, or was not found, leaves nothing behind. */
  ghost predicate NothingElse(adapters: Adapters, found: Found, d: Db) {
    && (!adapters.waveforms || found.waves == [] ==> d.waveforms == map[])
    && (!adapters.assertions ==> d.assertions == map[] && d.assertionFailures.rows == [])
    && (!adapters.coverage || found.coverages == [] ==> d.coverage.rows == [])
    && (found.svas == [] ==> d.sva.rows == [])
    && (!adapters.uvm ==> forall t :: t in d.tests ==> d.tests[t].framework != "uvm")
    && (!adapters.cocotb ==> forall t :: t in d.tests ==> d.tests[t].framework != "cocotb")
    && (forall t :: t in d.waveforms ==> exists w :: w in found.waves && WaveFrom(d, WaveArtifact(w), t))
  }

  /** Some enabled result found reports a failure for the run. */
  ghost predicate ResultFails(lib: Library, adapters: Adapters, found: Found, runId: string) {
    exists s :: s in found.results && Contributes(lib, s.artifact, runId)
      && (if s.artifact.UvmArtifact? then adapters.uvm else adapters.cocotb)
  }

  lemma EnabledResults(adapters: Adapters, found: Found)
    ensures var results := Filter(found.results, Enabled(adapters));
      && (forall i :: 0 <= i < |results| ==> IsResult(results[i].artifact) && Enabled(adapters)(results[i]))
      && (forall s :: s in results <==> s in found.results && Enabled(adapters)(s))
  {
    var results := Filter(found.results, Enabled(adapters));
    FilterMembers(found.results, Enabled(adapters));
    assert forall i :: 0 <= i < |results| ==> results[i] in results;
  }

  lemma StepsMembers<T(!new)>(xs: seq<T>, step: T -> Step)
    ensures forall x :: x in xs ==> step(x) in Steps(xs, step)
    ensures forall s :: s in Steps(xs, step) ==> exists x :: x in xs && s == step(x)
  {
    forall x | x in xs ensures step(x) in Steps(xs, step) {
      var i :| 0 <= i < |xs| && xs[i] == x;
      assert Steps(xs, step)[i] == step(x);
    }
    forall s | s in Steps(xs, step) ensures exists x :: x in xs && s == step(x) {
      var i :| 0 <= i < |xs| && Steps(xs, step)[i] == s;
      assert xs[i] in xs;
    }
  }

  /** The later phases hold exactly the enabled artifacts found. */
  lemma OthersMembers(adapters: Adapters, found: Found)
    ensures forall s :: s in Others(adapters, found) <==>
      || (adapters.waveforms && s in Steps(found.waves, WaveAsStep()))
      || (adapters.assertions && s in Steps(found.bundles, BundleAsStep()))
      || (adapters.assertions && adapters.uvm && s in LogAssertionSteps(found.results))
      || (adapters.coverage && s in Steps(found.coverages, CoverageAsStep()))
      || s in Steps(found.svas, SvaAsStep())
  {
  }

  lemma LogSteps(results: seq<Step>)
    ensures forall s :: s in results && s.artifact.UvmArtifact? ==> LogAsStep()(s) in LogAssertionSteps(results)
    ensures forall s :: s in LogAssertionSteps(results) ==> s.artifact.LogAssertionsArtifact?
  {
    FilterMembers(results, IsLog());
    StepsMembers(Filter(results, IsLog()), LogAsStep());
  }

  lemma OthersAreNoResults(adapters: Adapters, found: Found)
    ensures forall i :: 0 <= i < |Others(adapters, found)| ==> !IsResult(Others(adapters, found)[i].artifact)
  {
    var others := Others(adapters, found);
    OthersMembers(adapters, found);
    LogSteps(found.results);
    StepsMembers(found.waves, WaveAsStep());
    StepsMembers(found.bundles, BundleAsStep());
    StepsMembers(found.coverages, CoverageAsStep());
    StepsMembers(found.svas, SvaAsStep());
    forall i | 0 <= i < |others| ensures !IsResult(others[i].artifact) { assert others[i] in others; }
  }

  lemma LinkedMember(lib: Library, d: Db, others: seq<Step>, s: Step)
    requires forall i :: 0 <= i < |others| ==> Linked(lib, d, others[i].artifact)
    requires s in others
    ensures Linked(lib, d, s.artifact)
  {
  }

  lemma PlanDelivers(lib: Library, adapters: Adapters, found: Found)
    requires LibraryOk(lib)
    ensures Delivered(lib, adapters, found, IndexSteps(lib, EMPTY, Plan(adapters, found)))
  {
    hide IndexSteps, Linked, ResultHeld, Others, Steps, LibraryOk;
    hide WaveLinked, BundleLinked, LogLinked, CoverageLinked, SvaLinked;
    var results, others := Filter(found.results, Enabled(adapters)), Others(adapters, found);
    var d := IndexSteps(lib, EMPTY, Plan(adapters, found));
    OthersAreNoResults(adapters, found);
    OthersLinked(lib, results, others);
    OthersMembers(adapters, found);
    EnabledResults(adapters, found);
    forall s | s in results ensures ResultHeld(lib, d, s.artifact) {
      var i :| 0 <= i < |results| && results[i] == s;
      assert Plan(adapters, found)[i] == s;
      ResultsHeld(lib, Plan(adapters, found), i);
    }
    WavesDelivered(lib, adapters, found, d);
    BundlesDelivered(lib, adapters, found, d);
    LogsDelivered(lib, adapters, found, d);
    CoverageDelivered(lib, adapters, found, d);
    SvaDelivered(lib, adapters, found, d);
    StatusDelivered(lib, adapters, found);
  }

  lemma StatusDelivered(lib: Library, adapters: Adapters, found: Found)
    requires LibraryOk(lib)
    ensures var d := IndexSteps(lib, EMPTY, Plan(adapters, found)); forall s :: s in found.svas ==> SvaNamed(d, s)
  {
    hide IndexSteps, SvaNamed, LibraryOk, Steps;
    var svas := Steps(found.svas, SvaAsStep());
    var plan := Plan(adapters, found);
    var front := plan[..|plan| - |svas|];
    assert plan == front + svas;
    StatusNamesAssertions(lib, front, svas);
    StepsMembers(found.svas, SvaAsStep());
    forall s | s in found.svas ensures SvaNamed(IndexSteps(lib, EMPTY, plan), s) {
      assert SvaAsStep()(s) in svas;
      var i :| 0 <= i < |svas| && svas[i] == SvaAsStep()(s);
    }
  }

  // ---- what a full pass does in which order ----

  function OfKind(p: Artifact -> bool): Step -> bool { (s: Step) => p(s.artifact) }

  lemma KindInSteps<T(!new)>(xs: seq<T>, step: T -> Step, p: Artifact -> bool)
    ensures (forall x :: x in xs ==> p(step(x).artifact)) ==> Filter(Steps(xs, step), OfKind(p)) == Steps(xs, step)
    ensures (forall x :: x in xs ==> !p(step(x).artifact)) ==> Filter(Steps(xs, step), OfKind(p)) == []
  {
    StepsMembers(xs, step);
    if forall x :: x in xs ==> p(step(x).artifact) { FilterAll(Steps(xs, step), OfKind(p)); }
    if forall x :: x in xs ==> !p(step(x).artifact) { FilterNone(Steps(xs, step), OfKind(p)); }
  }

  lemma OthersByKind(adapters: Adapters, found: Found, p: Artifact -> bool)
    ensures Filter(Others(adapters, found), OfKind(p)) ==
      (if adapters.waveforms then Filter(Steps(found.waves, WaveAsStep()), OfKind(p)) else [])
      + (if adapters.assertions then Filter(Steps(found.bundles, BundleAsStep()), OfKind(p)) else [])
      + (if adapters.assertions && adapters.uvm then Filter(LogAssertionSteps(found.results), OfKind(p)) else [])
      + (if adapters.coverage then Filter(Steps(found.coverages, CoverageAsStep()), OfKind(p)) else [])
      + Filter(Steps(found.svas, SvaAsStep()), OfKind(p))
  {
    hide Steps, LogAssertionSteps, Filter;
    var w := if adapters.waveforms then Steps(found.waves, WaveAsStep()) else [];
    var b := if adapters.assertions then Steps(found.bundles, BundleAsStep()) else [];
    var l := if adapters.assertions && adapters.uvm then LogAssertionSteps(found.results) else [];
    var c := if adapters.coverage then Steps(found.coverages, CoverageAsStep()) else [];
    var s := Steps(found.svas, SvaAsStep());
    FilterConcat(w, b, OfKind(p));
    FilterConcat(w + b, l, OfKind(p));
    FilterConcat(w + b + l, c, OfKind(p));
    FilterConcat(w + b + l + c, s, OfKind(p));
    FilterEmpty(OfKind(p));
  }

  lemma FilterEmpty(p: Step -> bool)
    ensures Filter([], p) == []
  {
  }

  /** Whatever is switched on is done once, in the order found. */
  lemma PlanKeepsOrder(adapters: Adapters, found: Found)
    ensures adapters.uvm && adapters.cocotb && (forall s :: s in found.results ==> IsResult(s.artifact)) ==>
      found.results <= Plan(adapters, found)
    ensures adapters.waveforms ==>
      Filter(Plan(adapters, found), OfKind((a: Artifact) => a.WaveArtifact?)) == Steps(found.waves, WaveAsStep())
    ensures adapters.assertions ==>
      Filter(Plan(adapters, found), OfKind((a: Artifact) => a.BundleArtifact?)) == Steps(found.bundles, BundleAsStep())
    ensures adapters.coverage ==>
      Filter(Plan(adapters, found), OfKind((a: Artifact) => a.CoverageArtifact?))
        == Steps(found.coverages, CoverageAsStep())
    ensures Filter(Plan(adapters, found), OfKind((a: Artifact) => a.SvaArtifact?)) == Steps(found.svas, SvaAsStep())
  {
    hide Plan, Others, Steps, LogAssertionSteps, Filter;
    if adapters.uvm && adapters.cocotb && forall s :: s in found.results ==> IsResult(s.artifact) {
      AllEnabled(adapters, found);
    }
    WaveOrder(adapters, found);
    BundleOrder(adapters, found);
    CoverageOrder(adapters, found);
    SvaOrder(adapters, found);
  }

  lemma WaveOrder(adapters: Adapters, found: Found)
    ensures adapters.waveforms ==>
      Filter(Plan(adapters, found), OfKind((a: Artifact) => a.WaveArtifact?)) == Steps(found.waves, WaveAsStep())
  {
    hide Plan, Steps, Filter, OfKind;
    OneKind(adapters, found, (a: Artifact) => a.WaveArtifact?);
    KindInFound(found, (a: Artifact) => a.WaveArtifact?);
  }

  lemma BundleOrder(adapters: Adapters, found: Found)
    ensures adapters.assertions ==>
      Filter(Plan(adapters, found), OfKind((a: Artifact) => a.BundleArtifact?)) == Steps(found.bundles, BundleAsStep())
  {
    hide Plan, Steps, Filter, OfKind;
    OneKind(adapters, found, (a: Artifact) => a.BundleArtifact?);
    KindInFound(found, (a: Artifact) => a.BundleArtifact?);
  }

  lemma CoverageOrder(adapters: Adapters, found: Found)
    ensures adapters.coverage ==>
      Filter(Plan(adapters, found), OfKind((a: Artifact) => a.CoverageArtifact?))
        == Steps(found.coverages, CoverageAsStep())
  {
    hide Plan, Steps, Filter, OfKind;
    OneKind(adapters, found, (a: Artifact) => a.CoverageArtifact?);
    KindInFound(found, (a: Artifact) => a.CoverageArtifact?);
  }

  lemma SvaOrder(adapters: Adapters, found: Found)
    ensures Filter(Plan(adapters, found), OfKind((a: Artifact) => a.SvaArtifact?)) == Steps(found.svas, SvaAsStep())
  {
    hide Plan, Steps, Filter, OfKind;
    OneKind(adapters, found, (a: Artifact) => a.SvaArtifact?);
    KindInFound(found, (a: Artifact) => a.SvaArtifact?);
  }

  lemma AllEnabled(adapters: Adapters, found: Found)
    requires adapters.uvm && adapters.cocotb && forall s :: s in found.results ==> IsResult(s.artifact)
    ensures found.results <= Plan(adapters, found)
  {
    hide Others;
    FilterAll(found.results, Enabled(adapters));
  }

  lemma ResultsAreOther(adapters: Adapters, found: Found, p: Artifact -> bool)
    requires forall a :: IsResult(a) ==> !p(a)
    ensures Filter(Filter(found.results, Enabled(adapters)), OfKind(p)) == []
  {
    EnabledResults(adapters, found);
    FilterNone(Filter(found.results, Enabled(adapters)), OfKind(p));
  }

  lemma LogsAreOther(found: Found, p: Artifact -> bool)
    requires forall a: Artifact :: a.LogAssertionsArtifact? ==> !p(a)
    ensures Filter(LogAssertionSteps(found.results), OfKind(p)) == []
  {
    hide LogAssertionSteps;
    LogSteps(found.results);
    FilterNone(LogAssertionSteps(found.results), OfKind(p));
  }

  lemma OneKind(adapters: Adapters, found: Found, p: Artifact -> bool)
    requires forall a :: IsResult(a) || a.LogAssertionsArtifact? ==> !p(a)
    ensures Filter(Plan(adapters, found), OfKind(p)) ==
      (if adapters.waveforms then Filter(Steps(found.waves, WaveAsStep()), OfKind(p)) else [])
      + (if adapters.assertions then Filter(Steps(found.bundles, BundleAsStep()), OfKind(p)) else [])
      + (if adapters.coverage then Filter(Steps(found.coverages, CoverageAsStep()), OfKind(p)) else [])
      + Filter(Steps(found.svas, SvaAsStep()), OfKind(p))
  {
    hide Others, Steps, LogAssertionSteps, Filter, OfKind, Enabled, IsResult;
    var results := Filter(found.results, Enabled(adapters));
    ResultsAreOther(adapters, found, p);
    FilterConcat(results, Others(adapters, found), OfKind(p));
    OthersByKind(adapters, found, p);
    LogsAreOther(found, p);
  }

  lemma KindInFound(found: Found, p: Artifact -> bool)
    ensures (forall w :: p(WaveArtifact(w))) ==>
      Filter(Steps(found.waves, WaveAsStep()), OfKind(p)) == Steps(found.waves, WaveAsStep())
    ensures (forall w :: !p(WaveArtifact(w))) ==> Filter(Steps(found.waves, WaveAsStep()), OfKind(p)) == []
    ensures (forall b :: p(BundleArtifact(b))) ==>
      Filter(Steps(found.bundles, BundleAsStep()), OfKind(p)) == Steps(found.bundles, BundleAsStep())
    ensures (forall b :: !p(BundleArtifact(b))) ==> Filter(Steps(found.bundles, BundleAsStep()), OfKind(p)) == []
    ensures (forall c :: p(CoverageArtifact(c))) ==>
      Filter(Steps(found.coverages, CoverageAsStep()), OfKind(p)) == Steps(found.coverages, CoverageAsStep())
    ensures (forall c :: !p(CoverageArtifact(c))) ==>
      Filter(Steps(found.coverages, CoverageAsStep()), OfKind(p)) == []
    ensures (forall s :: p(SvaArtifact(s))) ==>
      Filter(Steps(found.svas, SvaAsStep()), OfKind(p)) == Steps(found.svas, SvaAsStep())
    ensures (forall s :: !p(SvaArtifact(s))) ==> Filter(Steps(found.svas, SvaAsStep()), OfKind(p)) == []
  {
    hide Steps, Filter;
    KindInSteps(found.waves, WaveAsStep(), p);
    KindInSteps(found.bundles, BundleAsStep(), p);
    KindInSteps(found.coverages, CoverageAsStep(), p);
    KindInSteps(found.svas, SvaAsStep(), p);
  }

  lemma WavesDelivered(lib: Library, adapters: Adapters, found: Found, d: Db)
    requires forall i :: 0 <= i < |Others(adapters, found)| ==> Linked(lib, d, Others(adapters, found)[i].artifact)
    ensures forall w :: w in found.waves && adapters.waveforms ==> WaveLinked(d, w)
  {
    hide Others, WaveLinked;
    OthersMembers(adapters, found);
    StepsMembers(found.waves, WaveAsStep());
    forall w | w in found.waves && adapters.waveforms ensures WaveLinked(d, w) {
      LinkedMember(lib, d, Others(adapters, found), WaveAsStep()(w));
    }
  }

  lemma BundlesDelivered(lib: Library, adapters: Adapters, found: Found, d: Db)
    requires forall i :: 0 <= i < |Others(adapters, found)| ==> Linked(lib, d, Others(adapters, found)[i].artifact)
    ensures forall b :: b in found.bundles && adapters.assertions ==> BundleLinked(lib, d, b)
  {
    hide Others, BundleLinked;
    OthersMembers(adapters, found);
    StepsMembers(found.bundles, BundleAsStep());
    forall b | b in found.bundles && adapters.assertions ensures BundleLinked(lib, d, b) {
      LinkedMember(lib, d, Others(adapters, found), BundleAsStep()(b));
    }
  }

  lemma LogsDelivered(lib: Library, adapters: Adapters, found: Found, d: Db)
    requires forall i :: 0 <= i < |Others(adapters, found)| ==> Linked(lib, d, Others(adapters, found)[i].artifact)
    ensures forall s :: s in found.results && s.artifact.UvmArtifact? && adapters.assertions && adapters.uvm ==>
      LogLinked(d, s.artifact.log)
  {
    hide Others, LogLinked, LogAssertionSteps;
    OthersMembers(adapters, found);
    LogSteps(found.results);
    forall s | s in found.results && s.artifact.UvmArtifact? && adapters.assertions && adapters.uvm
      ensures LogLinked(d, s.artifact.log)
    {
      LinkedMember(lib, d, Others(adapters, found), LogAsStep()(s));
    }
  }

  lemma CoverageDelivered(lib: Library, adapters: Adapters, found: Found, d: Db)
    requires forall i :: 0 <= i < |Others(adapters, found)| ==> Linked(lib, d, Others(adapters, found)[i].artifact)
    ensures forall c :: c in found.coverages && adapters.coverage ==> CoverageLinked(lib, d, c.report)
  {
    hide Others, CoverageLinked;
    OthersMembers(adapters, found);
    StepsMembers(found.coverages, CoverageAsStep());
    forall c | c in found.coverages && adapters.coverage ensures CoverageLinked(lib, d, c.report) {
      LinkedMember(lib, d, Others(adapters, found), CoverageAsStep()(c));
    }
  }

  lemma SvaDelivered(lib: Library, adapters: Adapters, found: Found, d: Db)
    requires forall i :: 0 <= i < |Others(adapters, found)| ==> Linked(lib, d, Others(adapters, found)[i].artifact)
    ensures forall s :: s in found.svas ==> SvaLinked(d, s)
  {
    hide Others, SvaLinked;
    OthersMembers(adapters, found);
    StepsMembers(found.svas, SvaAsStep());
    forall s | s in found.svas ensures SvaLinked(d, s) {
      LinkedMember(lib, d, Others(adapters, found), SvaAsStep()(s));
    }
  }

  /** What kinds of artifacts a plan holds. */
  lemma PlanKinds(adapters: Adapters, found: Found, s: Step)
    requires s in Plan(adapters, found)
    ensures s.artifact.UvmArtifact? ==> adapters.uvm
    ensures s.artifact.JunitArtifact? ==> adapters.cocotb
    ensures s.artifact.WaveArtifact? ==> adapters.waveforms && s.artifact.wave in found.waves
    ensures s.artifact.BundleArtifact? || s.artifact.LogAssertionsArtifact? ==> adapters.assertions
    ensures s.artifact.CoverageArtifact? ==> adapters.coverage && found.coverages != []
    ensures s.artifact.SvaArtifact? ==> found.svas != []
  {
    hide Others, LogAssertionSteps;
    EnabledResults(adapters, found);
    OthersMembers(adapters, found);
    LogSteps(found.results);
    StepsMembers(found.waves, WaveAsStep());
    StepsMembers(found.bundles, BundleAsStep());
    StepsMembers(found.coverages, CoverageAsStep());
    StepsMembers(found.svas, SvaAsStep());
  }

  lemma PlanAddsNothing(lib: Library, adapters: Adapters, found: Found)
    requires LibraryOk(lib)
    ensures NothingElse(adapters, found, IndexSteps(lib, EMPTY, Plan(adapters, found)))
  {
    hide IndexSteps, Plan, LibraryOk, WaveFrom;
    var steps := Plan(adapters, found);
    var d := IndexSteps(lib, EMPTY, steps);
    NothingFromNothing(lib, steps);
    forall i | 0 <= i < |steps|
      ensures var a := steps[i].artifact;
        && (a.UvmArtifact? ==> adapters.uvm) && (a.JunitArtifact? ==> adapters.cocotb)
        && (a.WaveArtifact? ==> adapters.waveforms && found.waves != [])
        && (a.BundleArtifact? || a.LogAssertionsArtifact? ==> adapters.assertions)
        && (a.CoverageArtifact? ==> adapters.coverage && found.coverages != [])
        && (a.SvaArtifact? ==> found.svas != [])
    {
      assert steps[i] in steps;
      PlanKinds(adapters, found, steps[i]);
    }
    forall t | t in d.tests
      ensures d.tests[t].framework == "uvm" ==> adapters.uvm
      ensures d.tests[t].framework == "cocotb" ==> adapters.cocotb
    {
      TestsComeFrom(lib, steps, t);
    }
    WavesOfPlan(lib, adapters, found);
  }

  lemma WavesOfPlan(lib: Library, adapters: Adapters, found: Found)
    requires LibraryOk(lib)
    ensures var d := IndexSteps(lib, EMPTY, Plan(adapters, found));
      forall t :: t in d.waveforms ==> exists w :: w in found.waves && WaveFrom(d, WaveArtifact(w), t)
  {
    hide IndexSteps, Others, LibraryOk, FindEither;
    var results, others := Filter(found.results, Enabled(adapters)), Others(adapters, found);
    var d := IndexSteps(lib, EMPTY, Plan(adapters, found));
    EnabledResults(adapters, found);
    OthersAreNoResults(adapters, found);
    forall t | t in d.waveforms ensures exists w :: w in found.waves && WaveFrom(d, WaveArtifact(w), t) {
      WavesComeFrom(lib, results, others, t);
      var i :| 0 <= i < |others| && WaveFrom(d, others[i].artifact, t);
      assert others[i] in Plan(adapters, found);
      PlanKinds(adapters, found, others[i]);
      assert others[i].artifact == WaveArtifact(others[i].artifact.wave);
    }
  }

  lemma PlanStatus(lib: Library, adapters: Adapters, found: Found, runId: string)
    requires LibraryOk(lib)
    ensures RunFails(IndexSteps(lib, EMPTY, Plan(adapters, found)), runId) <==> ResultFails(lib, adapters, found, runId)
  {
    hide IndexSteps, Others, LibraryOk, RunFails;
    var results, others := Filter(found.results, Enabled(adapters)), Others(adapters, found);
    var steps := Plan(adapters, found);
    StatusIsAnyContribution(lib, steps, runId);
    EnabledResults(adapters, found);
    OthersAreNoResults(adapters, found);
    assert forall i :: |results| <= i < |steps| ==> steps[i] == others[i - |results|];
    if i :| 0 <= i < |steps| && Contributes(lib, steps[i].artifact, runId) {
      OnlyResultsFail(lib, steps[i], runId);
      assert steps[i] == results[i] && results[i] in results;
    }
    if ResultFails(lib, adapters, found, runId) {
      var s :| s in found.results && Contributes(lib, s.artifact, runId)
        && (if s.artifact.UvmArtifact? then adapters.uvm else adapters.cocotb);
      assert s in results;
      var i :| 0 <= i < |results| && results[i] == s;
      assert steps[i] == s;
    }
  }

  lemma OnlyResultsFail(lib: Library, step: Step, runId: string)
    ensures Contributes(lib, step.artifact, runId) ==> IsResult(step.artifact)
  {
  }

  datatype Stats = Stats(
    artifacts: nat, runs: nat, tests: nat, failures: nat, waveforms: nat,
    assertions: nat, assertionFailures: nat, coverage: nat)

  lemma FindTestIs(d: Db, wanted: string, framework: Option<string>, r: Option<string>)
    requires FindsTest(d.tests, wanted, framework, r)
    ensures r == FindTest(d, wanted, framework)
  {
    var f := FindTest(d, wanted, framework);
    if r.Some? {
      assert IsBest(d.tests, r.value, wanted, framework);
      FoundTestUnique(d.tests, wanted, framework, r, f);
    }
  }

  /** The phases one after another are everything after the results. */
  lemma Regroup(
    done: seq<Step>, done1: seq<Step>, done2: seq<Step>, done3: seq<Step>, done4: seq<Step>,
    adapters: Adapters, found: Found)
    requires done1 == done + if adapters.waveforms then Steps(found.waves, WaveAsStep()) else []
    requires done2 == done1 + if adapters.assertions then Steps(found.bundles, BundleAsStep()) else []
    requires done3 == done2 + if adapters.assertions && adapters.uvm then LogAssertionSteps(found.results) else []
    requires done4 == done3 + if adapters.coverage then Steps(found.coverages, CoverageAsStep()) else []
    ensures done4 + Steps(found.svas, SvaAsStep()) == done + Others(adapters, found)
  {
    hide Steps, LogAssertionSteps;
  }

  class ArtifactIndexer {
    const lib: Library

    constructor (lib: Library)
      ensures this.lib == lib
    {
      this.lib := lib;
    }

    /** True for a new run; otherwise the stored run is merged with the incoming one. */
    method MergeIntoRun(store: IndexStore, id: string, incoming: Run) returns (isNew: bool)
      modifies store
      ensures isNew <==> id !in old(store.runs)
      ensures store.View() == if isNew then old(store.View()) else UpsertRun(lib, old(store.View()), id, incoming)
    {
      if id !in store.runs {
        return true;
      }
      store.InsertRun(id, MergeRun(lib, Some(store.runs[id]), incoming));
      return false;
    }

    method RecordRun(store: IndexStore, id: string, incoming: Run)
      modifies store
      ensures store.View() == UpsertRun(lib, old(store.View()), id, incoming)
    {
      var isNew := MergeIntoRun(store, id, incoming);
      if isNew {
        store.InsertRun(id, incoming);
      }
    }

    method RecordFailures(store: IndexStore, fs: seq<ParsedFailure>, testId: string, runId: string)
      modifies store
      ensures store.View() == IndexFailures(lib, old(store.View()), fs, testId, runId)
    {
      for i := 0 to |fs|
        invariant store.View() == IndexFailures(lib, old(store.View()), fs[..i], testId, runId)
      {
        assert fs[..i + 1][..i] == fs[..i];
        store.InsertFailure(
          FailureIdOf(lib, fs[i], testId), FailureRow(lib, fs[i], testId, runId), lib.normalizeRefs(fs[i].evidence));
      }
      assert fs[..|fs|] == fs;
    }

    method IndexUvmLog(store: IndexStore, now: string, log: UvmLog)
      modifies store
      ensures store.View() == IndexUvm(lib, old(store.View()), now, log)
    {
      if !log.location.withinLimit || log.test.None? {
        return;
      }
      var status := UvmStatus(log);
      var runId := RunIdOf(lib, log.location, false);
      RecordRun(store, runId, NewRun(lib, log.location, now, status));
      var testId := TestIdOf(lib, runId, "uvm", log.test.value.name);
      store.InsertTest(testId, TestRow(lib, now, runId, "uvm", log.test.value, status));
      if log.topology.Some? {
        store.InsertTopology(testId, log.topology.value);
      }
      RecordFailures(store, log.failures, testId, runId);
    }

    /** `failures_by_test`: the failures of a file under the names of their tests. */
    method GroupFailures(cases: seq<JunitCase>) returns (byTest: map<string, seq<ParsedFailure>>)
      ensures forall n :: Lookup(byTest, n).GetOr([]) == FailuresNamed(cases, n)
    {
      byTest := map[];
      for i := 0 to |cases|
        invariant forall n :: Lookup(byTest, n).GetOr([]) == FailuresNamed(cases[..i], n)
      {
        assert cases[..i + 1][..i] == cases[..i];
        var c := cases[i];
        if c.failure.Some? {
          byTest := byTest[c.test.name := Lookup(byTest, c.test.name).GetOr([]) + [c.failure.value]];
        }
      }
      assert cases[..|cases|] == cases;
    }

    method IndexJunitFile(store: IndexStore, now: string, file: JunitFile)
      modifies store
      ensures store.View() == IndexJunit(lib, old(store.View()), now, file)
    {
      if !file.location.withinLimit || file.cases == [] {
        return;
      }
      var cases := file.cases;
      var runId := RunIdOf(lib, file.location, true);
      RecordRun(store, runId, NewRun(lib, file.location, now, JunitStatus(cases)));
      var byTest := GroupFailures(cases);
      ghost var d1 := store.View();
      for i := 0 to |cases|
        invariant store.View() == IndexCases(lib, d1, now, runId, cases, i)
      {
        var c := cases[i];
        var testId := TestIdOf(lib, runId, "cocotb", c.test.name);
        store.InsertTest(testId, TestRow(lib, now, runId, "cocotb", c.test, CaseStatus(c)));
        assert Lookup(byTest, c.test.name).GetOr([]) == FailuresNamed(cases, c.test.name);
        RecordFailures(store, Lookup(byTest, c.test.name).GetOr([]), testId, runId);
      }
    }

    method FindTestEither(store: IndexStore, wanted: string, framework: Option<string>) returns (r: Option<string>)
      ensures r == FindEither(store.View(), wanted, framework)
      ensures r.Some? ==> r.value in store.tests
    {
      r := store.FindTestByName(wanted, framework);
      FindTestIs(store.View(), wanted, framework, r);
      if r.None? {
        r := store.FindTestByName(wanted, None);
        FindTestIs(store.View(), wanted, None, r);
      }
    }

    method ResolveTestContext(store: IndexStore, wanted: string, framework: Option<string>) returns (r: Option<string>)
      ensures r == ResolveTest(store.View(), wanted, framework)
      ensures r.Some? ==> r.value in store.tests
    {
      r := FindTestEither(store, wanted, framework);
      if r.Some? && store.tests[r.value].runId !in store.runs {
        r := None;
      }
    }

    method ResolveInEither(store: IndexStore, wanted: string) returns (r: Option<string>)
      ensures r == ResolveTwice(store.View(), wanted)
      ensures r.Some? ==> r.value in store.tests
    {
      r := ResolveTestContext(store, wanted, Some("cocotb"));
      if r.None? {
        r := ResolveTestContext(store, wanted, None);
      }
    }

    method IndexWaveform(store: IndexStore, wave: WaveFile)
      modifies store
      ensures store.View() == IndexWave(lib, old(store.View()), wave)
    {
      if !wave.location.withinLimit || !wave.readable {
        return;
      }
      var t := FindTestEither(store, wave.testName, LowerOption(wave.framework));
      if t.Some? {
        store.InsertWaveform(t.value, Waveform(wave.format, wave.endTimeNs, wave.location.path));
      }
    }

    method PersistAssertionBundle(
      store: IndexStore, defs: seq<Definition>, fs: seq<BundleFailure>, testId: string, runId: string, source: string)
      modifies store
      ensures store.View() == PersistBundle(lib, old(store.View()), defs, fs, testId, runId, source)
    {
      var names: map<string, string> := map[];
      ghost var start := Persisted(store.View(), map[]);
      for i := 0 to |defs|
        invariant Persisted(store.View(), names) == AddDefinitions(lib, start, defs[..i])
      {
        assert defs[..i + 1][..i] == defs[..i];
        var id := DefinitionIdOf(lib, defs[i]);
        store.InsertAssertion(id, DefinitionRow(defs[i]));
        names := names[defs[i].name := id];
      }
      assert defs[..|defs|] == defs;
      ghost var defined := AddDefinitions(lib, start, defs);
      for i := 0 to |fs|
        invariant Persisted(store.View(), names) == AddFailures(lib, defined, fs[..i], testId, runId, source)
      {
        assert fs[..i + 1][..i] == fs[..i];
        names := RecordBundleFailure(store, names, fs[i], testId, runId, source);
      }
      assert fs[..|fs|] == fs;
    }

    method RecordBundleFailure(
      store: IndexStore, known: map<string, string>, f: BundleFailure, testId: string, runId: string, source: string)
      returns (names: map<string, string>)
      modifies store
      ensures Persisted(store.View(), names) ==
        AddFailure(lib, Persisted(old(store.View()), known), f, testId, runId, source)
    {
      names := known;
      var name := BundleName(f);
      if name !in names {
        var id := UnknownIdOf(lib, testId, f);
        store.InsertAssertion(id, UnknownRow(id));
        names := names[name := id];
      }
      store.InsertAssertionFailure(
        AssertionFailure(names[name], testId, runId, f.timeNs, f.message),
        lib.normalizeRefs([EvidenceRef("log", source, None, None, None, None, Some(f.message))]));
    }

    method IndexAssertionBundle(store: IndexStore, b: Bundle)
      modifies store
      ensures store.View() == IndexBundle(lib, old(store.View()), b)
    {
      if !b.location.withinLimit || !b.readable || !Given(b.testName) {
        return;
      }
      var t := ResolveInEither(store, b.testName.value);
      if t.Some? {
        PersistAssertionBundle(store, b.definitions, b.failures, t.value, store.tests[t.value].runId, b.location.path);
      }
    }

    method IndexAssertionsInLog(store: IndexStore, log: UvmLog)
      modifies store
      ensures store.View() == IndexLogAssertions(lib, old(store.View()), log)
    {
      if !log.location.withinLimit || log.test.None? || log.test.value.name == "" || log.assertionFailures == [] {
        return;
      }
      var t := ResolveTestContext(store, log.test.value.name, Some("uvm"));
      if t.Some? {
        PersistAssertionBundle(
          store, [], log.assertionFailures, t.value, store.tests[t.value].runId, log.location.path);
      }
    }

    method IndexCoverageReport(store: IndexStore, now: string, c: CoverageFile)
      modifies store
      ensures store.View() == IndexCoverage(lib, old(store.View()), now, c)
    {
      if !c.location.withinLimit || !c.readable {
        return;
      }
      var t: Option<string> := None;
      if Given(c.testName) {
        t := ResolveInEither(store, c.testName.value);
      }
      var runId;
      if t.Some? {
        runId := store.tests[t.value].runId;
      } else {
        runId := RunIdOf(lib, c.location, true);
        RecordRun(store, runId, NewRun(lib, c.location, now, "pass"));
      }
      store.InsertCoverage(Coverage(runId, t, c.kind, c.metrics), CoverageRefs(c.location));
    }

    method RecordSvaEntry(store: IndexStore, e: SvaEntry, test: Option<string>)
      modifies store
      ensures store.View() == PutSva(old(store.View()), SvaRow(lib, old(store.View()), e, test))
    {
      var assertionId := "";
      if e.name != "" && test.Some? {
        var named := set a | a in store.assertions && store.assertions[a].name == e.name;
        if named != {} {
          assertionId := lib.anyOf(named);
        }
      }
      var vacuous := e.vacuous.GetOr(e.status == "vacuous");
      store.InsertSva(SvaStatus(
        assertionId,
        test.GetOr(""),
        if test.Some? && test.value in store.tests then store.tests[test.value].runId else "",
        if vacuous then "vacuous" else e.status,
        e.attempts - e.failures, e.failures, if vacuous then 1 else 0));
    }

    method IndexSvaStatus(store: IndexStore, s: SvaFile)
      modifies store
      ensures store.View() == IndexSva(lib, old(store.View()), s)
    {
      if !s.location.withinLimit || !s.readable || s.entries == [] {
        return;
      }
      var t: Option<string> := None;
      if Given(s.testName) {
        t := ResolveTestContext(store, s.testName.value, None);
      }
      RecordSvaEntries(store, s.entries, t);
    }

    method RecordSvaEntries(store: IndexStore, es: seq<SvaEntry>, test: Option<string>)
      modifies store
      ensures store.View() == AddSvaRows(lib, old(store.View()), es, test)
    {
      for i := 0 to |es|
        invariant store.View() == AddSvaRows(lib, old(store.View()), es[..i], test)
      {
        assert es[..i + 1][..i] == es[..i];
        RecordSvaEntry(store, es[i], test);
      }
      assert es[..|es|] == es;
    }

    method IndexOne(store: IndexStore, step: Step)
      modifies store
      ensures store.View() == IndexArtifact(lib, old(store.View()), step)
    {
      match step.artifact
      case UvmArtifact(log) => IndexUvmLog(store, step.now, log);
      case JunitArtifact(file) => IndexJunitFile(store, step.now, file);
      case WaveArtifact(wave) => IndexWaveform(store, wave);
      case BundleArtifact(b) => IndexAssertionBundle(store, b);
      case LogAssertionsArtifact(log) => IndexAssertionsInLog(store, log);
      case CoverageArtifact(c) => IndexCoverageReport(store, step.now, c);
      case SvaArtifact(s) => IndexSvaStatus(store, s);
    }

    method IndexNext(store: IndexStore, step: Step, ghost done: seq<Step>)
      requires store.View() == IndexSteps(lib, EMPTY, done)
      modifies store
      ensures store.View() == IndexSteps(lib, EMPTY, done + [step])
    {
      assert (done + [step])[..|done|] == done;
      IndexOne(store, step);
    }

    /** One phase of a pass, after the steps already done. */
    method IndexEach(store: IndexStore, steps: seq<Step>, ghost done: seq<Step>)
      requires store.View() == IndexSteps(lib, EMPTY, done)
      modifies store
      ensures store.View() == IndexSteps(lib, EMPTY, done + steps)
    {
      hide IndexArtifact;
      assert done + steps[..0] == done;
      for i := 0 to |steps|
        invariant store.View() == IndexSteps(lib, EMPTY, done + steps[..i])
      {
        assert done + steps[..i] + [steps[i]] == done + steps[..i + 1];
        IndexNext(store, steps[i], done + steps[..i]);
      }
      assert steps[..|steps|] == steps;
    }

    /** A phase that an adapter switch may turn off. */
    method IndexPhase(store: IndexStore, enabled: bool, steps: seq<Step>, ghost done: seq<Step>)
      requires store.View() == IndexSteps(lib, EMPTY, done)
      modifies store
      ensures store.View() == IndexSteps(lib, EMPTY, done + if enabled then steps else [])
    {
      hide IndexArtifact;
      if enabled {
        IndexEach(store, steps, done);
      } else {
        assert done + [] == done;
      }
    }

    /** Everything after the results. */
    method IndexOthers(store: IndexStore, adapters: Adapters, found: Found, ghost done: seq<Step>)
      requires store.View() == IndexSteps(lib, EMPTY, done)
      modifies store
      ensures store.View() == IndexSteps(lib, EMPTY, done + Others(adapters, found))
    {
      hide IndexSteps, LogAssertionSteps, Steps, Others;
      var waves, bundles := Steps(found.waves, WaveAsStep()), Steps(found.bundles, BundleAsStep());
      var coverages, svas := Steps(found.coverages, CoverageAsStep()), Steps(found.svas, SvaAsStep());
      var logs := LogAssertionSteps(found.results);
      IndexPhase(store, adapters.waveforms, waves, done);
      ghost var done1 := done + if adapters.waveforms then waves else [];
      IndexPhase(store, adapters.assertions, bundles, done1);
      ghost var done2 := done1 + if adapters.assertions then bundles else [];
      IndexPhase(store, adapters.assertions && adapters.uvm, logs, done2);
      ghost var done3 := done2 + if adapters.assertions && adapters.uvm then logs else [];
      IndexPhase(store, adapters.coverage, coverages, done3);
      ghost var done4 := done3 + if adapters.coverage then coverages else [];
      IndexEach(store, svas, done4);
      Regroup(done, done1, done2, done3, done4, adapters, found);
    }

    method IndexPlan(store: IndexStore, adapters: Adapters, found: Found)
      requires store.View() == IndexSteps(lib, EMPTY, [])
      modifies store
      ensures store.View() == IndexSteps(lib, EMPTY, Plan(adapters, found))
    {
      hide IndexSteps, Filter, Enabled, Others;
      var results := Filter(found.results, Enabled(adapters));
      IndexEach(store, results, []);
      assert [] + results == results;
      IndexOthers(store, adapters, found, results);
    }

    /**
     A full pass over everything found: the database is built from scratch, results first. What was
     found is delivered, nothing else is there, and a run fails exactly when a result says so.
     */
    method IndexAll(adapters: Adapters, found: Found) returns (store: IndexStore, stats: Stats)
      requires LibraryOk(lib)
      ensures fresh(store)
      ensures Consistent(lib, store.View())
      ensures Delivered(lib, adapters, found, store.View())
      ensures NothingElse(adapters, found, store.View())
      ensures forall r :: RunFails(store.View(), r) <==> ResultFails(lib, adapters, found, r)
      ensures stats.runs == |store.runs| && stats.tests == |store.tests| && stats.failures == |store.failures|
      ensures stats.waveforms == |store.waveforms| && stats.assertions == |store.assertions|
      ensures stats.assertionFailures == |store.assertionFailures.rows| && stats.coverage == |store.coverage.rows|
      ensures stats.artifacts == |found.results| + |found.svas|
        + (if adapters.waveforms then |found.waves| else 0)
        + (if adapters.assertions then |found.bundles| else 0)
        + (if adapters.coverage then |found.coverages| else 0)
      ensures store.View() == IndexSteps(lib, EMPTY, Plan(adapters, found))
    {
      hide IndexArtifact, Plan, Delivered, NothingElse;
      store := new IndexStore(StoredDb(map[], map[], map[], map[], map[], map[],
        StoredTable([], None), StoredTable([], None), StoredTable([], None), StoredTable([], None)));
      IndexPlan(store, adapters, found);
      ReachableConsistent(lib, Plan(adapters, found));
      PlanDelivers(lib, adapters, found);
      PlanAddsNothing(lib, adapters, found);
      forall r ensures RunFails(store.View(), r) <==> ResultFails(lib, adapters, found, r) {
        PlanStatus(lib, adapters, found, r);
      }
      var artifacts := |found.results| + |found.svas|;
      if adapters.waveforms { artifacts := artifacts + |found.waves|; }
      if adapters.assertions { artifacts := artifacts + |found.bundles|; }
      if adapters.coverage { artifacts := artifacts + |found.coverages|; }
      stats := Stats(artifacts,
                     |store.runs|, |store.tests|, |store.failures|, |store.waveforms|, |store.assertions|,
                     |store.assertionFailures.rows|, |store.coverage.rows|);
    }
  }
}
