/** Coverage gaps: which metrics are gaps, how urgent they are, and in which order they are reported. */
module CoverageHints {
  import opened Common
  import opened CoverageQuery
  import opened StoreModel
  import Sorting
  import Pagination

  datatype Priority = High | Medium | Low

  function Rank(p: Priority): nat {
    match p case High => 0 case Medium => 1 case Low => 2
  }

  datatype Gap = Gap(metric: Metric, coveredPct: real, binsMissed: seq<string>, priority: Priority)

  /** The keyword patterns and the rounding to two digits, which belong to Python's libraries. */
  datatype Rules = Rules(
    urgentName: string -> bool,
    notableName: string -> bool,
    round2: real -> real)

  function Classify(rules: Rules, name: string, covered: real): Priority {
    if covered < 25.0 then High
    else if rules.urgentName(name) then High
    else if rules.notableName(name) then Medium
    else if covered >= 50.0 then Low
    else Medium
  }

  /** Covering more of a metric never makes it more urgent, and below a quarter it is always urgent. */
  lemma MoreCoverageLessUrgent(rules: Rules, name: string, less: real, more: real)
    requires less <= more
    ensures Rank(Classify(rules, name, less)) <= Rank(Classify(rules, name, more))
    ensures less < 25.0 ==> Classify(rules, name, less) == High
  {
  }

  /** The rule as its description has it: low only above one half. */
  function DescribedPriority(rules: Rules, name: string, covered: real): Priority {
    if covered < 25.0 then High
    else if rules.urgentName(name) then High
    else if rules.notableName(name) then Medium
    else if covered > 50.0 then Low
    else Medium
  }

  /** The code departs from its description for names without a keyword at exactly one half, and nowhere else. */
  lemma DescriptionExact(rules: Rules, name: string, covered: real)
    ensures Classify(rules, name, covered) == DescribedPriority(rules, name, covered)
      <==> covered != 50.0 || rules.urgentName(name) || rules.notableName(name)
  {
  }

  /** A metric without a keyword, half covered, is reported as low and described as medium. */
  lemma HalfIsLow(rules: Rules, name: string)
    requires !rules.urgentName(name) && !rules.notableName(name)
    ensures Classify(rules, name, 50.0) == Low && DescribedPriority(rules, name, 50.0) == Medium
  {
  }

  function GapOf(rules: Rules, m: Metric): Gap {
    Gap(m, rules.round2(m.covered), Take(m.binsMissed, 50), Classify(rules, m.name, m.covered))
  }

  function Below(threshold: real): Metric -> bool { (m: Metric) => m.covered < threshold }

  function HasPriority(p: Priority): Gap -> bool { (g: Gap) => g.priority == p }

  /** One gap for each metric below the threshold, in the order of the metrics. */
  function GapsOf(rules: Rules, metrics: seq<Metric>, threshold: real): seq<Gap> {
    if metrics == [] then []
    else if metrics[0].covered < threshold
    then [GapOf(rules, metrics[0])] + GapsOf(rules, metrics[1..], threshold)
    else GapsOf(rules, metrics[1..], threshold)
  }

  function MetricsIn(gaps: seq<Gap>): (r: seq<Metric>)
    ensures |r| == |gaps| && forall i :: 0 <= i < |gaps| ==> r[i] == gaps[i].metric
  {
    seq(|gaps|, i requires 0 <= i < |gaps| => gaps[i].metric)
  }

  lemma {:induction false} GapsAreBelow(rules: Rules, metrics: seq<Metric>, threshold: real)
    ensures MetricsIn(GapsOf(rules, metrics, threshold)) == Filter(metrics, Below(threshold))
    ensures forall g :: g in GapsOf(rules, metrics, threshold) ==> g == GapOf(rules, g.metric)
    ensures |GapsOf(rules, metrics, threshold)| <= |metrics|
  {
    if metrics != [] { GapsAreBelow(rules, metrics[1..], threshold); }
  }

  /** By priority, then by rounded coverage. */
  predicate GapLe(a: Gap, b: Gap) {
    Rank(a.priority) < Rank(b.priority) || (a.priority == b.priority && a.coveredPct <= b.coveredPct)
  }

  lemma GapOrder()
    ensures Sorting.TotalPreorder(GapLe)
  {
  }

  method GenerateRecommendations(rules: Rules, metrics: seq<Metric>, threshold: real, maxGaps: int)
    returns (r: seq<Gap>)
    ensures r == Take(Sorting.Sort(GapsOf(rules, metrics, threshold), GapLe), maxGaps)
  {
    var gaps: seq<Gap> := [];
    for i := 0 to |metrics|
      invariant gaps + GapsOf(rules, metrics[i..], threshold) == GapsOf(rules, metrics, threshold)
    {
      var m := metrics[i];
      assert metrics[i..][1..] == metrics[i + 1..];
      if m.covered < threshold {
        var g := GapOf(rules, m);
        var rest := GapsOf(rules, metrics[i + 1..], threshold);
        assert gaps + ([g] + rest) == (gaps + [g]) + rest;
        gaps := gaps + [g];
      }
    }
    assert gaps + [] == gaps;
    r := Take(Sorting.Sort(gaps, GapLe), maxGaps);
  }

  function Reported(rules: Rules, metrics: seq<Metric>, threshold: real): seq<Gap> {
    Sorting.Sort(GapsOf(rules, metrics, threshold), GapLe)
  }

  /**
   The report is in order, and holds every metric below the threshold exactly as often as it occurs,
   with its own classification.
   */
  lemma ReportedMeaning(rules: Rules, metrics: seq<Metric>, threshold: real)
    ensures Sorting.SortedBy(Reported(rules, metrics, threshold), GapLe)
    ensures multiset(Reported(rules, metrics, threshold)) == multiset(GapsOf(rules, metrics, threshold))
    ensures MetricsIn(GapsOf(rules, metrics, threshold)) == Filter(metrics, Below(threshold))
    ensures forall g :: g in Reported(rules, metrics, threshold) ==> g == GapOf(rules, g.metric)
  {
    var gaps := GapsOf(rules, metrics, threshold);
    GapOrder();
    Sorting.SortSorted(gaps, GapLe);
    Sorting.SortPermutes(gaps, GapLe);
    GapsAreBelow(rules, metrics, threshold);
    forall g | g in Reported(rules, metrics, threshold) ensures g in gaps {
      assert g in multiset(Reported(rules, metrics, threshold));
    }
  }

  datatype GapError =
    | BadRunId | BadKind | BadPriority | BadThreshold | BadPaging(error: Pagination.PageError) | TooLarge

  datatype GapPage = GapPage(gaps: seq<Gap>, totalMetrics: nat, gapsFound: nat, totalPages: nat)

  function PageOfGaps(gaps: seq<Gap>, totalMetrics: nat, page: nat, pageSize: nat): GapPage
    requires page >= 1 && pageSize >= 1
  {
    var offset := (page - 1) * pageSize;
    GapPage(Slice(gaps, offset, offset + pageSize), totalMetrics, |gaps|, Pagination.TotalPages(|gaps|, pageSize))
  }

  const KINDS := {"functional", "code", "assertion", "toggle", "fsm", "unknown"}

  function PriorityOf(name: string): Option<Priority> {
    if name == "high" then Some(High)
    else if name == "medium" then Some(Medium)
    else if name == "low" then Some(Low)
    else None
  }

  /** The first complaint about the arguments, in the order they are checked. */
  function GapComplaint(
    runId: Option<string>, kind: Option<string>, priority: Option<string>, threshold: real,
    page: int, pageSize: int, maxPageSize: int): Option<GapError>
  {
    if Pagination.GivenText(runId) && !Pagination.ValidId(runId.value) then Some(BadRunId)
    else if Pagination.GivenText(kind) && kind.value !in KINDS then Some(BadKind)
    else if Pagination.GivenText(priority) && PriorityOf(priority.value).None? then Some(BadPriority)
    else if !(0.0 <= threshold <= 100.0) then Some(BadThreshold)
    else
      match Pagination.ClampPagination(page, pageSize, maxPageSize)
      case Failure(e) => Some(BadPaging(e))
      case Success(_) => None
  }

  /** The gaps of the priority asked for, if one is. */
  function Wanted(gaps: seq<Gap>, priority: Option<string>): seq<Gap> {
    if Pagination.GivenText(priority) && PriorityOf(priority.value).Some?
    then Filter(gaps, HasPriority(PriorityOf(priority.value).value))
    else gaps
  }

  /** All gaps, then one priority if asked for, then the limit. */
  function FoundGaps(rules: Rules, metrics: seq<Metric>, threshold: real, priority: Option<string>, maxGaps: nat)
    : seq<Gap>
  {
    Take(Wanted(Reported(rules, metrics, threshold), priority), maxGaps)
  }

  lemma NothingCut(rules: Rules, metrics: seq<Metric>, threshold: real)
    ensures Take(Sorting.Sort(GapsOf(rules, metrics, threshold), GapLe), |metrics|)
      == Reported(rules, metrics, threshold)
  {
    GapsAreBelow(rules, metrics, threshold);
    Sorting.SortPermutes(GapsOf(rules, metrics, threshold), GapLe);
  }

  /** The query behind the gap list returns that many metrics at most. */
  const METRIC_LIMIT: nat := 2_000

  lemma {:induction false} GapsConcat(rules: Rules, a: seq<Metric>, b: seq<Metric>, threshold: real)
    ensures GapsOf(rules, a + b, threshold) == GapsOf(rules, a, threshold) + GapsOf(rules, b, threshold)
  {
    if a == [] {
      assert a + b == b;
    } else {
      assert (a + b)[1..] == a[1..] + b;
      GapsConcat(rules, a[1..], b, threshold);
    }
  }

  /** Filtering before the sort gives the same answer. */
  lemma FoundIsSorted(rules: Rules, metrics: seq<Metric>, threshold: real, priority: Option<string>, maxGaps: nat)
    ensures FoundGaps(rules, metrics, threshold, priority, maxGaps)
      == Take(Sorting.Sort(Wanted(GapsOf(rules, metrics, threshold), priority), GapLe), maxGaps)
  {
    if Pagination.GivenText(priority) && PriorityOf(priority.value).Some? {
      PriorityNeverStarved(rules, metrics, threshold, PriorityOf(priority.value).value);
    }
  }

  lemma WantedConcat(a: seq<Gap>, b: seq<Gap>, priority: Option<string>)
    ensures Wanted(a + b, priority) == Wanted(a, priority) + Wanted(b, priority)
  {
    if Pagination.GivenText(priority) && PriorityOf(priority.value).Some? {
      FilterConcat(a, b, HasPriority(PriorityOf(priority.value).value));
    }
  }

  /** No wanted gap past the cut, or a full list of gaps none of which it would displace. */
  ghost predicate CutHarmless(a: seq<Gap>, b: seq<Gap>, maxGaps: nat) {
    || maxGaps == 0
    || b == []
    || (maxGaps <= |a| && |Sorting.Sort(a, GapLe)| == |a|
        && forall g :: g in b ==> GapLe(Sorting.Sort(a, GapLe)[maxGaps - 1], g))
  }

  /**
   The metrics are cut before they are ranked. The tool finds the gaps it would find among all
   metrics exactly when those past the cut hold no wanted gap, or the list is full and none of them
   ranks before its last gap.
   */
  lemma CutAnswerExact(
    rules: Rules, d: Db, q: Query, threshold: real, priority: Option<string>, maxGaps: nat)
    ensures var fetched, all := Fetched(d, q, METRIC_LIMIT), AllMetrics(d, q);
      && fetched <= all
      && (FoundGaps(rules, fetched, threshold, priority, maxGaps) == FoundGaps(rules, all, threshold, priority, maxGaps)
          <==> CutHarmless(
                 Wanted(GapsOf(rules, fetched, threshold), priority),
                 Wanted(GapsOf(rules, all[|fetched|..], threshold), priority),
                 maxGaps))
  {
    hide Fetched, AllMetrics, GapsOf, FoundGaps, Wanted, Sorting.Sort;
    var fetched, all := Fetched(d, q, METRIC_LIMIT), AllMetrics(d, q);
    FetchedExact(d, q, METRIC_LIMIT);
    var rest := all[|fetched|..];
    assert all == fetched + rest;
    var a, b := Wanted(GapsOf(rules, fetched, threshold), priority), Wanted(GapsOf(rules, rest, threshold), priority);
    GapsConcat(rules, fetched, rest, threshold);
    WantedConcat(GapsOf(rules, fetched, threshold), GapsOf(rules, rest, threshold), priority);
    FoundIsSorted(rules, fetched, threshold, priority, maxGaps);
    FoundIsSorted(rules, all, threshold, priority, maxGaps);
    GapOrder();
    Sorting.CutExact(a, b, GapLe, maxGaps);
  }

  lemma LeastRank(s: seq<Gap>)
    requires s != [] && Sorting.SortedBy(s, GapLe)
    ensures forall g :: g in s ==> Rank(s[0].priority) <= Rank(g.priority)
  {
    forall g | g in s ensures Rank(s[0].priority) <= Rank(g.priority) {
      var i :| 0 <= i < |s| && s[i] == g;
      if i > 0 { assert GapLe(s[0], s[i]); }
    }
  }

  /** A gap is reported exactly for the metrics below the threshold. */
  lemma ReportedFrom(rules: Rules, metrics: seq<Metric>, threshold: real)
    ensures forall g :: g in Reported(rules, metrics, threshold) ==>
      g.metric in metrics && g.metric.covered < threshold && g == GapOf(rules, g.metric)
    ensures forall m :: m in metrics && m.covered < threshold ==> GapOf(rules, m) in Reported(rules, metrics, threshold)
  {
    hide Sorting.Sort, GapOf;
    var s, gaps := Reported(rules, metrics, threshold), GapsOf(rules, metrics, threshold);
    ReportedMeaning(rules, metrics, threshold);
    forall g | g in s ensures g.metric in metrics && g.metric.covered < threshold {
      assert g in multiset(s);
      GapFrom(rules, metrics, threshold, g);
    }
    forall m | m in metrics && m.covered < threshold ensures GapOf(rules, m) in s {
      GapListed(rules, metrics, threshold, m);
      assert GapOf(rules, m) in multiset(s);
    }
  }

  /** The list starts with an urgent gap exactly when there is one. */
  lemma UrgentLeads(rules: Rules, metrics: seq<Metric>, threshold: real, maxGaps: nat)
    requires maxGaps >= 1 && exists m :: m in metrics && m.covered < threshold
    ensures var found := FoundGaps(rules, metrics, threshold, None, maxGaps);
      && found != [] && found[0].metric in metrics && found[0] == GapOf(rules, found[0].metric)
      && (found[0].priority == High
          <==> exists m :: m in metrics && m.covered < threshold && Classify(rules, m.name, m.covered) == High)
  {
    hide Reported, Classify;
    var s := Reported(rules, metrics, threshold);
    ReportedFrom(rules, metrics, threshold);
    ReportedMeaning(rules, metrics, threshold);
    var m :| m in metrics && m.covered < threshold;
    assert GapOf(rules, m) in s;
    LeastRank(s);
    assert Take(s, maxGaps)[0] == s[0];
    if h :| h in metrics && h.covered < threshold && Classify(rules, h.name, h.covered) == High {
      assert GapOf(rules, h) in s;
    }
  }

  lemma {:induction false} GapListed(rules: Rules, metrics: seq<Metric>, threshold: real, m: Metric)
    requires m in metrics && m.covered < threshold
    ensures GapOf(rules, m) in GapsOf(rules, metrics, threshold)
  {
    if m != metrics[0] { GapListed(rules, metrics[1..], threshold, m); }
  }

  lemma {:induction false} GapFrom(rules: Rules, metrics: seq<Metric>, threshold: real, g: Gap)
    requires g in GapsOf(rules, metrics, threshold)
    ensures g.metric in metrics && g.metric.covered < threshold
  {
    if !(metrics[0].covered < threshold && g == GapOf(rules, metrics[0])) {
      GapFrom(rules, metrics[1..], threshold, g);
    }
  }

  /** The gap list of the tool, one page of it. */
  method GetCoverageGaps(
    rules: Rules, d: Db, runId: Option<string>, suite: Option<string>, kind: Option<string>, priority: Option<string>,
    threshold: real, page: int, pageSize: int, maxPageSize: int, maxGaps: nat, fits: GapPage -> bool)
    returns (r: Result<GapPage, GapError>)
    ensures var complaint := GapComplaint(runId, kind, priority, threshold, page, pageSize, maxPageSize);
      if complaint.Some? then r == Failure(complaint.value)
      else
        var metrics := Fetched(d, Query(runId, suite, kind), METRIC_LIMIT);
        var found := FoundGaps(rules, metrics, threshold, priority, maxGaps);
        var answer := PageOfGaps(found, |metrics|, page, pageSize);
        r == if fits(answer) then Success(answer) else Failure(TooLarge)
  {
    hide Fetched, Reported, GapsOf, Filter, Take, Slice, Pagination.ValidId, Pagination.TotalPages;
    if Pagination.GivenText(runId) && !Pagination.ValidId(runId.value) {
      return Failure(BadRunId);
    }
    if Pagination.GivenText(kind) && kind.value !in KINDS {
      return Failure(BadKind);
    }
    if Pagination.GivenText(priority) && PriorityOf(priority.value).None? {
      return Failure(BadPriority);
    }
    if !(0.0 <= threshold <= 100.0) {
      return Failure(BadThreshold);
    }
    match Pagination.ClampPagination(page, pageSize, maxPageSize)
    case Failure(e) => r := Failure(BadPaging(e));
    case Success((p, size)) =>
      var metrics := Fetched(d, Query(runId, suite, kind), METRIC_LIMIT);
      var gaps := GenerateRecommendations(rules, metrics, threshold, |metrics|);
      NothingCut(rules, metrics, threshold);
      if Pagination.GivenText(priority) {
        gaps := Filter(gaps, HasPriority(PriorityOf(priority.value).value));
      }
      gaps := Take(gaps, maxGaps);
      var answer := PageOfGaps(gaps, |metrics|, p, size);
      r := if fits(answer) then Success(answer) else Failure(TooLarge);
  }

  /** What the pages of the gap list show: the most urgent gaps of one priority, whatever the others. */
  lemma FoundGapsMeaning(rules: Rules, metrics: seq<Metric>, threshold: real, priority: string, maxGaps: nat)
    requires PriorityOf(priority).Some?
    ensures FoundGaps(rules, metrics, threshold, Some(priority), maxGaps)
      == Take(
           Sorting.Sort(Filter(GapsOf(rules, metrics, threshold), HasPriority(PriorityOf(priority).value)), GapLe),
           maxGaps)
  {
    PriorityNeverStarved(rules, metrics, threshold, PriorityOf(priority).value);
  }

  /**
   Asking for one priority gives what the other priorities would never let through otherwise: the
   sorted gaps of that priority alone, because filtering commutes with the stable sort.
   */
  lemma PriorityNeverStarved(rules: Rules, metrics: seq<Metric>, threshold: real, p: Priority)
    ensures Filter(Reported(rules, metrics, threshold), HasPriority(p))
      == Sorting.Sort(Filter(GapsOf(rules, metrics, threshold), HasPriority(p)), GapLe)
  {
    GapOrder();
    Sorting.SortFilter(GapsOf(rules, metrics, threshold), GapLe, HasPriority(p));
  }

  lemma UrgentFirst(s: seq<Gap>)
    requires Sorting.SortedBy(s, GapLe)
    ensures Sorting.InFront(s, HasPriority(High))
  {
    forall i, j | 0 <= i < j < |s| && s[j].priority == High ensures s[i].priority == High {
      assert GapLe(s[i], s[j]);
    }
  }

  /**
   The advisor cuts the list first (at 100 by default) and keeps the urgent gaps afterwards. For
   urgent gaps the two steps commute, so it sees the same gaps as the gap list does.
   */
  lemma AdvisorSeesUrgentGaps(rules: Rules, metrics: seq<Metric>, threshold: real, cut: nat)
    ensures Filter(Take(Reported(rules, metrics, threshold), cut), HasPriority(High))
      == Take(Filter(Reported(rules, metrics, threshold), HasPriority(High)), cut)
  {
    ReportedMeaning(rules, metrics, threshold);
    UrgentFirst(Reported(rules, metrics, threshold));
    Sorting.FilterFront(Reported(rules, metrics, threshold), HasPriority(High), cut);
  }

  // ---- what the pages show ----

  /** The gap is that of the metric: rounded coverage, and fifty missed bins at most. */
  ghost predicate IsGapOf(rules: Rules, m: Metric, g: Gap) {
    && g.metric == m && g.coveredPct == rules.round2(m.covered)
    && g.binsMissed <= m.binsMissed && |g.binsMissed| <= 50 && (g.binsMissed == m.binsMissed || |g.binsMissed| == 50)
    && g.priority == Classify(rules, m.name, m.covered)
  }

  /** High before medium before low, and within a priority the least covered first. */
  ghost predicate MostUrgentFirst(gaps: seq<Gap>) {
    forall i, j :: 0 <= i < j < |gaps| ==>
      && (gaps[j].priority == High ==> gaps[i].priority == High)
      && (gaps[i].priority == Low ==> gaps[j].priority == Low)
      && (gaps[i].priority == gaps[j].priority ==> gaps[i].coveredPct <= gaps[j].coveredPct)
  }

  /** The priority asked for, by its name; an empty name asks for all. */
  predicate Asks(priority: Option<string>, p: Priority) {
    priority == None || priority.value == ""
    || match p case High => priority.value == "high" case Medium => priority.value == "medium"
       case Low => priority.value == "low"
  }

  lemma WantedMeaning(gaps: seq<Gap>, priority: Option<string>, g: Gap)
    requires priority == None || priority.value in {"", "high", "medium", "low"}
    ensures g in Wanted(gaps, priority) <==> g in gaps && Asks(priority, g.priority)
  {
    if Pagination.GivenText(priority) {
      FilterMembers(gaps, HasPriority(PriorityOf(priority.value).value));
    }
  }

  lemma {:induction false} FilterSorted(s: seq<Gap>, p: Gap -> bool)
    requires Sorting.SortedBy(s, GapLe)
    ensures Sorting.SortedBy(Filter(s, p), GapLe)
  {
    if s != [] {
      FilterSorted(s[1..], p);
      FilterMembers(s[1..], p);
      var rest := Filter(s[1..], p);
      forall i | 0 <= i < |rest| ensures GapLe(s[0], rest[i]) {
        assert rest[i] in rest;
        var j :| 0 <= j < |s[1..]| && s[1..][j] == rest[i];
        assert s[j + 1] == rest[i];
      }
    }
  }

  /** The list before the limit: in order, and a gap is on it exactly if a metric below the threshold asks for it. */
  lemma ListMeaning(rules: Rules, metrics: seq<Metric>, threshold: real, priority: Option<string>)
    requires priority == None || priority.value in {"", "high", "medium", "low"}
    ensures var found := Wanted(Reported(rules, metrics, threshold), priority);
      && MostUrgentFirst(found)
      && (forall g :: g in found ==>
            g.metric in metrics && g.metric.covered < threshold && IsGapOf(rules, g.metric, g)
            && Asks(priority, g.priority))
      && forall m :: m in metrics && m.covered < threshold && Asks(priority, Classify(rules, m.name, m.covered)) ==>
           exists g :: g in found && IsGapOf(rules, m, g)
  {
    hide Reported, Classify, Wanted, Asks;
    var all := Reported(rules, metrics, threshold);
    var found := Wanted(all, priority);
    ReportedMeaning(rules, metrics, threshold);
    ReportedFrom(rules, metrics, threshold);
    forall g ensures g in found <==> g in all && Asks(priority, g.priority) { WantedMeaning(all, priority, g); }
    WantedSorted(all, priority);
    OrderIsUrgency(found);
    forall m | m in metrics && m.covered < threshold && Asks(priority, Classify(rules, m.name, m.covered))
      ensures exists g :: g in found && IsGapOf(rules, m, g)
    {
      assert GapOf(rules, m) in all && IsGapOf(rules, m, GapOf(rules, m));
    }
  }

  lemma WantedSorted(gaps: seq<Gap>, priority: Option<string>)
    requires Sorting.SortedBy(gaps, GapLe)
    ensures Sorting.SortedBy(Wanted(gaps, priority), GapLe)
  {
    if Pagination.GivenText(priority) && PriorityOf(priority.value).Some? {
      FilterSorted(gaps, HasPriority(PriorityOf(priority.value).value));
    }
  }

  lemma OrderIsUrgency(gaps: seq<Gap>)
    requires Sorting.SortedBy(gaps, GapLe)
    ensures MostUrgentFirst(gaps)
  {
    forall i, j | 0 <= i < j < |gaps|
      ensures (gaps[j].priority == High ==> gaps[i].priority == High)
        && (gaps[i].priority == Low ==> gaps[j].priority == Low)
        && (gaps[i].priority == gaps[j].priority ==> gaps[i].coveredPct <= gaps[j].coveredPct)
    {
      assert GapLe(gaps[i], gaps[j]);
    }
  }

  /** The gaps on the first pages, page after page. */
  function FirstPages(gaps: seq<Gap>, totalMetrics: nat, pageSize: nat, pages: nat): seq<Gap>
    requires pageSize >= 1
  {
    if pages == 0 then []
    else FirstPages(gaps, totalMetrics, pageSize, pages - 1) + PageOfGaps(gaps, totalMetrics, pages, pageSize).gaps
  }

  /** The pages one after another are the list, cut after so many pages; all pages together are the list. */
  lemma {:induction false} PagesAreTheList(gaps: seq<Gap>, totalMetrics: nat, pageSize: nat, pages: nat)
    requires pageSize >= 1
    ensures FirstPages(gaps, totalMetrics, pageSize, pages) == Take(gaps, pages * pageSize)
    ensures pages > 0 ==>
      var p := PageOfGaps(gaps, totalMetrics, pages, pageSize);
      && p.gapsFound == |gaps| && p.totalMetrics == totalMetrics
      && (p.totalPages <= pages <==> FirstPages(gaps, totalMetrics, pageSize, pages) == gaps)
  {
    if pages > 0 {
      PagesAreTheList(gaps, totalMetrics, pageSize, pages - 1);
      var before := (pages - 1) * pageSize;
      assert pages * pageSize == before + pageSize;
      OneMorePage(gaps, before, pageSize);
      Pagination.TotalPagesMeaning(|gaps|, pageSize, pages);
    }
  }

  lemma OneMorePage(gaps: seq<Gap>, before: nat, pageSize: nat)
    ensures Take(gaps, before) + Slice(gaps, before, before + pageSize) == Take(gaps, before + pageSize)
  {
  }

  /** Nothing is wrong with the arguments exactly when each of them is in its range. */
  lemma NoGapComplaint(
    runId: Option<string>, kind: Option<string>, priority: Option<string>, threshold: real,
    page: int, pageSize: int, maxPageSize: int)
    ensures GapComplaint(runId, kind, priority, threshold, page, pageSize, maxPageSize).None? <==>
      && (runId == None || runId.value == "" || Pagination.ValidId(runId.value))
      && (kind == None || kind.value in {"", "functional", "code", "assertion", "toggle", "fsm", "unknown"})
      && (priority == None || priority.value in {"", "high", "medium", "low"})
      && 0.0 <= threshold <= 100.0 && page >= 1 && 1 <= pageSize <= maxPageSize
  {
  }
}
