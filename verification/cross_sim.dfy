/** Results of one test cohort that differ between simulators, and the cohorts the health score counts. */
module CrossSim {
  import opened Common
  import opened StoreModel
  import TextOrder
  import Sorting
  import IndexInvariants

  datatype Cohort = Cohort(suite: string, name: string, framework: string, dutTop: string)

  /** The inner join of tests and runs drops tests without a run. */
  predicate Joined(d: Db, t: string) { t in d.tests && d.tests[t].runId in d.runs }

  function CohortOf(d: Db, t: string): Cohort {
    if Joined(d, t) then
      Cohort(d.runs[d.tests[t].runId].suite, d.tests[t].name, d.tests[t].framework, d.tests[t].dutTop.GetOr(""))
    else Cohort("", "", "", "")
  }

  function VendorOf(d: Db, t: string): Option<string> {
    if t in d.tests then d.tests[t].simVendor else None
  }

  function StatusOf(d: Db, t: string): string { if t in d.tests then d.tests[t].status else "" }

  /** `WHERE r.suite LIKE prefix || '%'`, when a prefix is given. */
  predicate InScope(d: Db, prefix: Option<string>, t: string) {
    && Joined(d, t)
    && (prefix.Some? && prefix.value != "" ==> Like(CohortOf(d, t).suite, prefix.value + "%"))
  }

  /** `COALESCE(t.created_at_ms, r.created_at_ms)` */
  function WhenMs(d: Db, t: string): Option<int> {
    if !Joined(d, t) then None
    else if d.tests[t].createdAtMs.Some? then d.tests[t].createdAtMs
    else d.runs[d.tests[t].runId].createdAtMs
  }

  /** Later time first, missing times last, then the greater test id. */
  predicate Newer(d: Db, a: string, b: string) {
    var x, y := WhenMs(d, a), WhenMs(d, b);
    if x == y then TextOrder.Lt(b, a)
    else x.Some? && (y.None? || x.value > y.value)
  }

  predicate SamePartition(d: Db, a: string, b: string) {
    CohortOf(d, a) == CohortOf(d, b) && VendorOf(d, a) == VendorOf(d, b)
  }

  /** `recency_rank = 1` */
  ghost predicate Latest(d: Db, prefix: Option<string>, t: string) {
    && InScope(d, prefix, t)
    && forall u :: InScope(d, prefix, u) && SamePartition(d, t, u) && u != t ==> Newer(d, t, u)
  }

  predicate Decided(d: Db, t: string) { StatusOf(d, t) == "pass" || StatusOf(d, t) == "fail" }

  /** The join condition of the query. */
  ghost predicate Diverges(d: Db, prefix: Option<string>, a: string, b: string) {
    && Latest(d, prefix, a) && Latest(d, prefix, b)
    && CohortOf(d, a) == CohortOf(d, b)
    && VendorOf(d, a).Some? && VendorOf(d, b).Some?
    && TextOrder.Lt(VendorOf(d, a).value, VendorOf(d, b).value)
    && Decided(d, a) && Decided(d, b) && StatusOf(d, a) != StatusOf(d, b)
  }

  type Pair = (string, string)

  /** The rows of the answer before `LIMIT`. */
  ghost function Divergence(d: Db, prefix: Option<string>): set<Pair> {
    set a, b | a in d.tests && b in d.tests && Diverges(d, prefix, a, b) :: (a, b)
  }

  /** Simulators whose latest result in the cohort has the status. */
  ghost function Sims(d: Db, prefix: Option<string>, k: Cohort, status: string): set<string> {
    set t | t in d.tests && Latest(d, prefix, t) && CohortOf(d, t) == k && VendorOf(d, t).Some?
        && StatusOf(d, t) == status
      :: VendorOf(d, t).value
  }

  function PairCohort(d: Db): Pair -> Cohort { (p: Pair) => CohortOf(d, p.0) }

  ghost function RowsOf(d: Db, prefix: Option<string>, k: Cohort): set<Pair> {
    Class(Divergence(d, prefix), PairCohort(d), k)
  }

  /** Two results are compared exactly when suite, test name, framework and design under test agree. */
  lemma CohortExact(d: Db, a: string, b: string)
    requires Joined(d, a) && Joined(d, b)
    ensures var x, y := d.tests[a], d.tests[b];
      CohortOf(d, a) == CohortOf(d, b) <==>
        && d.runs[x.runId].suite == d.runs[y.runId].suite && x.name == y.name && x.framework == y.framework
        && (x.dutTop == y.dutTop || (x.dutTop.GetOr("") == "" && y.dutTop.GetOr("") == ""))
  {
  }

  lemma NewerOrder(d: Db, a: string, b: string, c: string)
    ensures !(Newer(d, a, b) && Newer(d, b, a))
    ensures a != b ==> Newer(d, a, b) || Newer(d, b, a)
    ensures Newer(d, a, b) && Newer(d, b, c) ==> Newer(d, a, c)
  {
    TextOrder.LtTotal(a, b);
    if TextOrder.Lt(b, a) && TextOrder.Lt(c, b) { TextOrder.LtTransitive(c, b, a); }
  }

  /** A simulator has one latest result in a cohort. */
  lemma LatestUnique(d: Db, prefix: Option<string>, a: string, b: string)
    requires Latest(d, prefix, a) && Latest(d, prefix, b) && SamePartition(d, a, b)
    ensures a == b
  {
    NewerOrder(d, a, b, a);
  }

  /** Every simulator with a result in a cohort has a latest one. */
  lemma LatestExists(d: Db, prefix: Option<string>, t: string) returns (l: string)
    requires InScope(d, prefix, t)
    ensures Latest(d, prefix, l) && SamePartition(d, t, l)
  {
    l := t;
    var rest := d.tests.Keys;
    while rest != {}
      invariant rest <= d.tests.Keys
      invariant InScope(d, prefix, l) && SamePartition(d, t, l)
      invariant forall u ::
        u in d.tests.Keys - rest && InScope(d, prefix, u) && SamePartition(d, t, u) && u != l ==> Newer(d, l, u)
      decreases rest
    {
      var u :| u in rest;
      if InScope(d, prefix, u) && SamePartition(d, t, u) && u != l && !Newer(d, l, u) {
        NewerOrder(d, l, u, l);
        forall v | v in d.tests.Keys - rest && InScope(d, prefix, v) && SamePartition(d, t, v) && v != u
          ensures Newer(d, u, v)
        {
          NewerOrder(d, u, l, v);
        }
        l := u;
      }
      rest := rest - {u};
    }
  }

  /** The time a result counts from: its own, or else that of its run. */
  ghost predicate Stamped(d: Db, t: string, time: int) {
    && t in d.tests && d.tests[t].runId in d.runs
    && (d.tests[t].createdAtMs == Some(time)
        || (d.tests[t].createdAtMs == None && d.runs[d.tests[t].runId].createdAtMs == Some(time)))
  }

  /**
   No result of a row is older than another of the same test and simulator in scope: that one has no
   time, or an earlier one, or the same one and a smaller id.
   */
  lemma RowsAreRecent(d: Db, prefix: Option<string>, a: string, b: string, r: string, u: string)
    requires (a, b) in Divergence(d, prefix) && r in {a, b} && InScope(d, prefix, u) && SamePartition(d, r, u)
    ensures forall y :: Stamped(d, u, y) ==> exists x :: Stamped(d, r, x) && y <= x
    ensures (forall y :: Stamped(d, u, y) <==> Stamped(d, r, y)) ==> TextOrder.Le(u, r)
  {
    var x, y := WhenMs(d, r), WhenMs(d, u);
    assert u == r || Newer(d, r, u);
    StampIs(d, r);
    StampIs(d, u);
    TextOrder.LeTotal(u, r);
    if y.Some? { assert Stamped(d, r, x.value); }
    if x.Some? { assert Stamped(d, r, x.value); }
  }

  lemma StampIs(d: Db, t: string)
    requires Joined(d, t)
    ensures forall time :: Stamped(d, t, time) <==> WhenMs(d, t) == Some(time)
  {
  }

  /** The passing and the failing simulator of a row. */
  function PassFail(d: Db): Pair -> Pair {
    (p: Pair) =>
      var a, b := VendorOf(d, p.0).GetOr(""), VendorOf(d, p.1).GetOr("");
      if StatusOf(d, p.0) == "pass" then (a, b) else (b, a)
  }

  lemma RowsAreDivergences(d: Db, prefix: Option<string>, k: Cohort, p: Pair)
    requires p in RowsOf(d, prefix, k)
    ensures Diverges(d, prefix, p.0, p.1) && CohortOf(d, p.0) == k == CohortOf(d, p.1)
  {
  }

  lemma RowMapsIntoSims(d: Db, prefix: Option<string>, k: Cohort, p: Pair)
    requires p in RowsOf(d, prefix, k)
    ensures PassFail(d)(p) in Product(Sims(d, prefix, k, "pass"), Sims(d, prefix, k, "fail"))
  {
    RowsAreDivergences(d, prefix, k, p);
  }

  lemma RowMapInjective(d: Db, prefix: Option<string>, k: Cohort, p: Pair, q: Pair)
    requires p in RowsOf(d, prefix, k) && q in RowsOf(d, prefix, k) && PassFail(d)(p) == PassFail(d)(q)
    ensures p == q
  {
    RowsAreDivergences(d, prefix, k, p);
    RowsAreDivergences(d, prefix, k, q);
    var a, b := VendorOf(d, p.0).value, VendorOf(d, p.1).value;
    TextOrder.LtTotal(a, b);
    LatestUnique(d, prefix, p.0, q.0);
    LatestUnique(d, prefix, p.1, q.1);
  }

  lemma RowMapOnto(d: Db, prefix: Option<string>, k: Cohort, v: string, w: string) returns (p: Pair)
    requires v in Sims(d, prefix, k, "pass") && w in Sims(d, prefix, k, "fail")
    ensures p in RowsOf(d, prefix, k) && PassFail(d)(p) == (v, w)
  {
    var a :| a in d.tests && Latest(d, prefix, a) && CohortOf(d, a) == k && VendorOf(d, a) == Some(v)
      && StatusOf(d, a) == "pass";
    var b :| b in d.tests && Latest(d, prefix, b) && CohortOf(d, b) == k && VendorOf(d, b) == Some(w)
      && StatusOf(d, b) == "fail";
    if v == w { LatestUnique(d, prefix, a, b); }
    TextOrder.LtTotal(v, w);
    p := if TextOrder.Lt(v, w) then (a, b) else (b, a);
    assert Diverges(d, prefix, p.0, p.1);
    assert p in Divergence(d, prefix);
  }

  /** A cohort contributes one row for each passing and failing simulator: p times f rows in all. */
  lemma CohortRowCount(d: Db, prefix: Option<string>, k: Cohort)
    ensures |RowsOf(d, prefix, k)| == |Sims(d, prefix, k, "pass")| * |Sims(d, prefix, k, "fail")|
  {
    var rows := RowsOf(d, prefix, k);
    var ps, fs := Sims(d, prefix, k, "pass"), Sims(d, prefix, k, "fail");
    forall p | p in rows ensures PassFail(d)(p) in Product(ps, fs) {
      RowMapsIntoSims(d, prefix, k, p);
    }
    forall p, q | p in rows && q in rows && PassFail(d)(p) == PassFail(d)(q) ensures p == q {
      RowMapInjective(d, prefix, k, p, q);
    }
    forall y | y in Product(ps, fs) ensures exists p :: p in rows && PassFail(d)(p) == y {
      var p := RowMapOnto(d, prefix, k, y.0, y.1);
    }
    BijectionCard(rows, Product(ps, fs), PassFail(d));
    ProductCard(ps, fs);
  }

  ghost function DivergentCohorts(d: Db, prefix: Option<string>): set<Cohort> {
    set p | p in Divergence(d, prefix) :: PairCohort(d)(p)
  }

  /** A cohort appears exactly when some simulator's latest result passes and some other's fails. */
  lemma CohortAppears(d: Db, prefix: Option<string>, k: Cohort)
    ensures k in DivergentCohorts(d, prefix) <==> Sims(d, prefix, k, "pass") != {} && Sims(d, prefix, k, "fail") != {}
  {
    var ps, fs := Sims(d, prefix, k, "pass"), Sims(d, prefix, k, "fail");
    if ps != {} && fs != {} {
      var v :| v in ps;
      var w :| w in fs;
      var p := RowMapOnto(d, prefix, k, v, w);
      assert PairCohort(d)(p) == k;
    }
    if k in DivergentCohorts(d, prefix) {
      var p :| p in Divergence(d, prefix) && PairCohort(d)(p) == k;
      RowMapsIntoSims(d, prefix, k, p);
    }
  }

  /** Each unordered pair of results appears once. */
  lemma PairAppearsOnce(d: Db, prefix: Option<string>, a: string, b: string)
    requires (a, b) in Divergence(d, prefix)
    ensures (b, a) !in Divergence(d, prefix) && a != b
  {
    TextOrder.LtTotal(VendorOf(d, a).value, VendorOf(d, b).value);
  }

  /** All rows together: the sum of p times f over the divergent cohorts. */
  lemma RowsAddUp(d: Db, prefix: Option<string>)
    ensures |Divergence(d, prefix)|
      == SumOver(DivergentCohorts(d, prefix), ClassSize(Divergence(d, prefix), PairCohort(d)))
    ensures forall k :: k in DivergentCohorts(d, prefix) ==>
      (ClassSize(Divergence(d, prefix), PairCohort(d))(k)
        == |Sims(d, prefix, k, "pass")| * |Sims(d, prefix, k, "fail")| >= 1)
  {
    var rows, ks := Divergence(d, prefix), DivergentCohorts(d, prefix);
    ClassesAddUp(rows, PairCohort(d), ks);
    assert Classes(rows, PairCohort(d), ks) == rows by {
      forall p | p in rows ensures PairCohort(d)(p) in ks {}
    }
    forall k | k in ks ensures ClassSize(rows, PairCohort(d))(k)
      == |Sims(d, prefix, k, "pass")| * |Sims(d, prefix, k, "fail")| >= 1
    {
      CohortRowCount(d, prefix, k);
      CohortAppears(d, prefix, k);
      PositiveProduct(|Sims(d, prefix, k, "pass")|, |Sims(d, prefix, k, "fail")|);
    }
  }

  lemma PositiveProduct(p: nat, f: nat)
    requires p > 0 && f > 0
    ensures p * f >= 1
    ensures p * f == 1 <==> p == 1 && f == 1
  {
    if p >= 2 { assert p * f >= 2 * f; }
    if f >= 2 { assert p * f >= p * 2; }
  }

  // ---- cohorts counted for the health score ----

  datatype TestKey = TestKey(name: string, framework: string, dutTop: string)

  function KeyOf(d: Db, t: string): TestKey {
    if t in d.tests then TestKey(d.tests[t].name, d.tests[t].framework, d.tests[t].dutTop.GetOr(""))
    else TestKey("", "", "")
  }

  /** The row counts for the run asked for: some test of that run has the same name, framework and DUT. */
  ghost predicate SharedWithRun(d: Db, runId: Option<string>, t: string) {
    runId.Some? && runId.value != "" ==>
      exists u :: u in d.tests && d.tests[u].runId == runId.value && KeyOf(d, u) == KeyOf(d, t)
  }

  /** Cohorts with decided results from two simulators at least, in the whole index, one suite or one run's tests. */
  ghost predicate MultiSim(d: Db, suite: Option<string>, runId: Option<string>, k: Cohort) {
    && (suite.Some? && suite.value != "" ==> k.suite == suite.value)
    && exists a, b ::
         && Joined(d, a) && Joined(d, b) && CohortOf(d, a) == k == CohortOf(d, b)
         && SharedWithRun(d, runId, a) && SharedWithRun(d, runId, b)
         && Decided(d, a) && Decided(d, b)
         && VendorOf(d, a).Some? && VendorOf(d, b).Some? && VendorOf(d, a) != VendorOf(d, b)
  }

  ghost function AllCohorts(d: Db): set<Cohort> { set t | t in d.tests :: CohortOf(d, t) }

  ghost function MultiSimCohorts(d: Db, suite: Option<string>, runId: Option<string>): set<Cohort> {
    set k | k in AllCohorts(d) && MultiSim(d, suite, runId, k)
  }

  /** Every text matches the pattern that starts with it, wildcards in it included. */
  lemma {:induction false} LikeOwnPrefix(s: string)
    ensures Like(s, s + "%")
  {
    if s == "" {
      assert Like("", "%"[1..]);
    } else {
      LikeOwnPrefix(s[1..]);
      assert (s + "%")[1..] == s[1..] + "%";
    }
  }

  /** Asking by prefix and then keeping one suite gives exactly that suite's rows of the whole answer. */
  lemma SuiteScopeExact(d: Db, suite: string, a: string, b: string)
    requires CohortOf(d, a).suite == suite && CohortOf(d, b).suite == suite
    ensures (a, b) in Divergence(d, Some(suite)) <==> (a, b) in Divergence(d, None)
  {
    LikeOwnPrefix(suite);
    forall t | CohortOf(d, t).suite == suite ensures Latest(d, Some(suite), t) <==> Latest(d, None, t) {
      assert forall u :: SamePartition(d, t, u) ==> (InScope(d, Some(suite), u) <==> InScope(d, None, u));
    }
    assert Diverges(d, Some(suite), a, b) <==> Diverges(d, None, a, b);
  }

  predicate InSuite(suite: Option<string>, k: Cohort) {
    suite.Some? && suite.value != "" ==> k.suite == suite.value
  }

  /** Divergent cohorts of the suite asked for: the prefix match is narrowed to equality afterwards. */
  ghost function DivergentInSuite(d: Db, suite: Option<string>): set<Cohort> {
    set k | k in DivergentCohorts(d, suite) && InSuite(suite, k)
  }

  /** The rows of the suite asked for: the prefix match is narrowed to equality afterwards. */
  ghost function DivergentRows(d: Db, suite: Option<string>): set<Pair> {
    set p | p in Divergence(d, suite) && InSuite(suite, PairCohort(d)(p))
  }

  lemma SuiteRowsOfCohort(d: Db, suite: Option<string>, k: Cohort)
    requires k in DivergentInSuite(d, suite)
    ensures Class(DivergentRows(d, suite), PairCohort(d), k) == RowsOf(d, suite, k)
  {
  }

  /**
   The number of the suite's rows is what the health data reports as divergent tests. It counts
   tests exactly when every divergent cohort has one passing and one failing simulator; otherwise
   it counts more.
   */
  lemma DivergentRowsCountTests(d: Db, suite: Option<string>)
    ensures |DivergentRows(d, suite)| >= |DivergentInSuite(d, suite)|
    ensures |DivergentRows(d, suite)| == |DivergentInSuite(d, suite)| <==>
      forall k :: k in DivergentInSuite(d, suite) ==>
        |Sims(d, suite, k, "pass")| == 1 && |Sims(d, suite, k, "fail")| == 1
  {
    var rows, ks := DivergentRows(d, suite), DivergentInSuite(d, suite);
    var size := ClassSize(rows, PairCohort(d));
    ClassesAddUp(rows, PairCohort(d), ks);
    assert Classes(rows, PairCohort(d), ks) == rows by {
      forall p | p in rows ensures PairCohort(d)(p) in ks {
        assert PairCohort(d)(p) in DivergentCohorts(d, suite);
      }
    }
    forall k | k in ks
      ensures size(k) >= 1
      ensures size(k) == 1 <==> |Sims(d, suite, k, "pass")| == 1 && |Sims(d, suite, k, "fail")| == 1
    {
      SuiteRowsOfCohort(d, suite, k);
      CohortRowCount(d, suite, k);
      CohortAppears(d, suite, k);
      PositiveProduct(|Sims(d, suite, k, "pass")|, |Sims(d, suite, k, "fail")|);
    }
    SumOfOnes(ks, size);
  }

  lemma DivergenceIsMultiSim(d: Db, suite: Option<string>, a: string, b: string)
    requires Diverges(d, suite, a, b)
    requires suite.Some? && suite.value != "" ==> CohortOf(d, a).suite == suite.value
    ensures CohortOf(d, a) in AllCohorts(d) && MultiSim(d, suite, None, CohortOf(d, a))
  {
    TextOrder.LtTotal(VendorOf(d, a).value, VendorOf(d, b).value);
    assert Joined(d, a) && Joined(d, b);
  }

  /** Without a run filter, at most every cohort seen by several simulators diverges. */
  lemma DivergentWithinMultiSim(d: Db, suite: Option<string>)
    ensures DivergentInSuite(d, suite) <= MultiSimCohorts(d, suite, None)
    ensures |DivergentInSuite(d, suite)| <= |MultiSimCohorts(d, suite, None)|
  {
    forall k | k in DivergentInSuite(d, suite) ensures k in MultiSimCohorts(d, suite, None) {
      var p :| p in Divergence(d, suite) && PairCohort(d)(p) == k;
      DivergenceIsMultiSim(d, suite, p.0, p.1);
    }
    SubsetCard(DivergentInSuite(d, suite), MultiSimCohorts(d, suite, None));
  }

  // ---- the limit on the rows ----

  /** The order of lists of texts: the first difference decides. */
  predicate KeysLe(a: seq<string>, b: seq<string>) {
    if a == [] then true
    else if b == [] then false
    else if a[0] != b[0] then TextOrder.Le(a[0], b[0])
    else KeysLe(a[1..], b[1..])
  }

  lemma {:induction false} KeysTotal(a: seq<string>, b: seq<string>)
    ensures KeysLe(a, b) || KeysLe(b, a)
  {
    if a != [] && b != [] {
      TextOrder.LeTotal(a[0], b[0]);
      if a[0] == b[0] { KeysTotal(a[1..], b[1..]); }
    }
  }

  lemma {:induction false} KeysTransitive(a: seq<string>, b: seq<string>, c: seq<string>)
    requires KeysLe(a, b) && KeysLe(b, c)
    ensures KeysLe(a, c)
  {
    if a != [] {
      if a[0] == b[0] == c[0] {
        KeysTransitive(a[1..], b[1..], c[1..]);
      } else {
        TextOrder.LeTotal(a[0], a[0]);
        TextOrder.LeTotal(c[0], c[0]);
        TextOrder.LeTransitive(a[0], b[0], c[0]);
        if a[0] == c[0] { TextOrder.LeAntisymmetric(a[0], b[0]); }
      }
    }
  }

  function RowKey(d: Db, p: Pair): seq<string> {
    var k := CohortOf(d, p.0);
    [k.suite, k.name, VendorOf(d, p.0).GetOr(""), VendorOf(d, p.1).GetOr("")]
  }

  /** `ORDER BY suite, name, sim_a, sim_b` */
  predicate RowLe(d: Db, p: Pair, q: Pair) { KeysLe(RowKey(d, p), RowKey(d, q)) }

  /** The rows of the answer in an order the query allows. */
  ghost predicate Lists(d: Db, prefix: Option<string>, rows: seq<Pair>) {
    && (forall p :: p in rows <==> p in Divergence(d, prefix))
    && (forall i, j :: 0 <= i < j < |rows| ==> rows[i] != rows[j])
    && forall i, j :: 0 <= i < j < |rows| ==> RowLe(d, rows[i], rows[j])
  }

  lemma {:induction false} SetListed<T(!new)>(s: set<T>) returns (r: seq<T>)
    ensures (forall x :: x in r <==> x in s) && forall i, j :: 0 <= i < j < |r| ==> r[i] != r[j]
    decreases s
  {
    if s == {} {
      r := [];
    } else {
      var x :| x in s;
      var rest := SetListed(s - {x});
      r := [x] + rest;
      assert forall j :: 0 <= j < |rest| ==> rest[j] in rest;
    }
  }

  /** Every answer can be listed in such an order. */
  lemma ListsExists(d: Db, prefix: Option<string>) returns (rows: seq<Pair>)
    ensures Lists(d, prefix, rows)
  {
    hide Divergence, RowKey, KeysLe;
    var unordered := SetListed(Divergence(d, prefix));
    var le := (p: Pair, q: Pair) => RowLe(d, p, q);
    forall p, q ensures le(p, q) || le(q, p) { KeysTotal(RowKey(d, p), RowKey(d, q)); }
    forall p, q, r | le(p, q) && le(q, r) ensures le(p, r) {
      KeysTransitive(RowKey(d, p), RowKey(d, q), RowKey(d, r));
    }
    rows := Sorting.Sort(unordered, le);
    Sorting.SortSorted(unordered, le);
    Sorting.SortPermutes(unordered, le);
    SamePairs(unordered, rows);
    forall i, j | 0 <= i < j < |rows| ensures RowLe(d, rows[i], rows[j]) { assert le(rows[i], rows[j]); }
  }

  lemma SamePairs(a: seq<Pair>, b: seq<Pair>)
    requires multiset(a) == multiset(b) && forall i, j :: 0 <= i < j < |a| ==> a[i] != a[j]
    ensures forall p :: p in b <==> p in a
    ensures forall i, j :: 0 <= i < j < |b| ==> b[i] != b[j]
  {
    forall p ensures p in b <==> p in a { assert p in multiset(b) <==> p in multiset(a); }
    forall i, j | 0 <= i < j < |b| ensures b[i] != b[j] {
      if b[i] == b[j] {
        var front, back := b[..j], b[j..];
        assert b == front + back && front[i] == b[i] && back[0] == b[i];
        assert b[i] in front && b[i] in back && multiset(b) == multiset(front) + multiset(back);
        OnceThere(a, b[i]);
      }
    }
  }

  lemma {:induction false} OnceThere(a: seq<Pair>, p: Pair)
    requires forall i, j :: 0 <= i < j < |a| ==> a[i] != a[j]
    ensures multiset(a)[p] <= 1
  {
    if a != [] {
      OnceThere(a[1..], p);
      assert a == [a[0]] + a[1..];
      if p == a[0] { assert p !in a[1..]; }
    }
  }

  /** The suite a row belongs to, as the sort sees it. */
  function SuiteKey(d: Db): Pair -> string { (p: Pair) => CohortOf(d, p.0).suite }

  function KeyIs(key: Pair -> string, k: string): Pair -> bool { (p: Pair) => key(p) == k }

  function KeyBelow(key: Pair -> string, k: string): Pair -> bool { (p: Pair) => TextOrder.Lt(key(p), k) }

  ghost predicate SortedByKey(rows: seq<Pair>, key: Pair -> string) {
    forall i, j :: 0 <= i < j < |rows| ==> TextOrder.Le(key(rows[i]), key(rows[j]))
  }

  lemma NoneBelow(rows: seq<Pair>, key: Pair -> string, k: string)
    requires SortedByKey(rows, key) && rows != [] && !TextOrder.Lt(key(rows[0]), k)
    ensures Filter(rows, KeyBelow(key, k)) == []
    ensures key(rows[0]) != k ==> Filter(rows, KeyIs(key, k)) == []
  {
    if key(rows[0]) != k {
      forall p | p in rows ensures !KeyIs(key, k)(p) {
        var i :| 0 <= i < |rows| && rows[i] == p;
        assert i > 0 ==> TextOrder.Le(key(rows[0]), key(rows[i]));
      }
      FilterNone(rows, KeyIs(key, k));
    }
    forall p | p in rows ensures !KeyBelow(key, k)(p) {
      var i :| 0 <= i < |rows| && rows[i] == p;
      if i > 0 && TextOrder.Lt(key(p), k) {
        TextOrder.LeTransitive(key(rows[0]), key(rows[i]), k);
        if key(rows[0]) == k { TextOrder.LeAntisymmetric(key(rows[i]), k); }
      }
    }
    FilterNone(rows, KeyBelow(key, k));
  }

  lemma TakeCons(rows: seq<Pair>, n: nat)
    requires rows != [] && n > 0
    ensures Take(rows, n) == [rows[0]] + Take(rows[1..], n - 1)
  {
  }

  /** Cutting a sorted list first leaves of one group what the groups in front of it leave room for. */
  lemma {:induction false} CutThenKeep(rows: seq<Pair>, key: Pair -> string, k: string, n: nat)
    requires SortedByKey(rows, key)
    ensures |Filter(Take(rows, n), KeyIs(key, k))|
      == Max(0, Min(n - |Filter(rows, KeyBelow(key, k))|, |Filter(rows, KeyIs(key, k))|))
  {
    hide Take, TextOrder.Lt, TextOrder.Le;
    if rows == [] || n == 0 {
      assert Take(rows, n) == [];
    } else {
      CutThenKeep(rows[1..], key, k, n - 1);
      TakeCons(rows, n);
      FilterCons(rows[0], Take(rows[1..], n - 1), KeyIs(key, k));
      if !TextOrder.Lt(key(rows[0]), k) {
        NoneBelow(rows, key, k);
      } else {
        BelowIsNot(key(rows[0]), k);
      }
    }
  }

  lemma BelowIsNot(a: string, b: string)
    requires TextOrder.Lt(a, b)
    ensures a != b
  {
  }

  /** A list without repetitions has as many elements of a kind as the set of them has. */
  lemma {:induction false} KeptCard(rows: seq<Pair>, p: Pair -> bool)
    requires forall i, j :: 0 <= i < j < |rows| ==> rows[i] != rows[j]
    ensures |Filter(rows, p)| == |set r | r in rows && p(r)|
  {
    if rows != [] {
      KeptCard(rows[1..], p);
      var rest := set r | r in rows[1..] && p(r);
      assert rows[0] !in rows[1..];
      var all := set r | r in rows && p(r);
      assert rows == [rows[0]] + rows[1..];
      if p(rows[0]) { assert all == rest + {rows[0]}; } else { assert all == rest; }
    }
  }

  /** Rows of other suites that match the prefix and sort in front of the suite asked for. */
  ghost function RowsAhead(d: Db, suite: string): set<Pair> {
    set p | p in Divergence(d, Some(suite)) && TextOrder.Lt(SuiteKey(d)(p), suite)
  }

  /** How many rows are left after cutting the answer at the limit and narrowing it to the suite. */
  ghost function ReportedRows(d: Db, suite: Option<string>, limit: nat): nat {
    if suite.Some? && suite.value != ""
    then Max(0, Min(limit - |RowsAhead(d, suite.value)|, |DivergentRows(d, suite)|))
    else Min(limit, |DivergentRows(d, suite)|)
  }

  lemma LimitedSuite(d: Db, suite: string, rows: seq<Pair>, limit: nat)
    requires suite != "" && Lists(d, Some(suite), rows)
    ensures |Filter(Take(rows, limit), KeyIs(SuiteKey(d), suite))| == ReportedRows(d, Some(suite), limit)
  {
    hide Divergence, RowLe, CohortOf, Filter, Take, TextOrder.Lt;
    var key := SuiteKey(d);
    LimitedSort(d, Some(suite), rows);
    CutThenKeep(rows, key, suite, limit);
    KeptCard(rows, KeyBelow(key, suite));
    KeptCard(rows, KeyIs(key, suite));
    assert (set r | r in rows && KeyBelow(key, suite)(r)) == RowsAhead(d, suite);
    assert (set r | r in rows && KeyIs(key, suite)(r)) == DivergentRows(d, Some(suite));
  }

  /** Any order the query allows gives that number. */
  lemma LimitedAnswer(d: Db, suite: Option<string>, rows: seq<Pair>, limit: nat)
    requires Lists(d, suite, rows)
    ensures suite.Some? && suite.value != "" ==>
      |Filter(Take(rows, limit), KeyIs(SuiteKey(d), suite.value))| == ReportedRows(d, suite, limit)
    ensures !(suite.Some? && suite.value != "") ==> |Take(rows, limit)| == ReportedRows(d, suite, limit)
  {
    hide Divergence, RowLe, KeyIs, SuiteKey;
    if suite.Some? && suite.value != "" {
      LimitedSuite(d, suite.value, rows, limit);
    } else {
      var all: Pair -> bool := (p: Pair) => true;
      KeptCard(rows, all);
      FilterAll(rows, all);
      assert (set r | r in rows && all(r)) == DivergentRows(d, suite);
    }
  }

  lemma LimitedSort(d: Db, suite: Option<string>, rows: seq<Pair>)
    requires Lists(d, suite, rows)
    ensures SortedByKey(rows, SuiteKey(d))
  {
    forall i, j | 0 <= i < j < |rows| ensures TextOrder.Le(SuiteKey(d)(rows[i]), SuiteKey(d)(rows[j])) {
      assert RowLe(d, rows[i], rows[j]);
      TextOrder.LeTotal(SuiteKey(d)(rows[i]), SuiteKey(d)(rows[j]));
    }
  }

  /** The limit hides nothing exactly when the suite has no rows, or its rows and those ahead of them fit. */
  lemma LimitHarmless(d: Db, suite: string, limit: nat)
    requires suite != ""
    ensures ReportedRows(d, Some(suite), limit) == |DivergentRows(d, Some(suite))| <==>
      DivergentRows(d, Some(suite)) == {} || |RowsAhead(d, suite)| + |DivergentRows(d, Some(suite))| <= limit
  {
    if |DivergentRows(d, Some(suite))| == 0 { assert DivergentRows(d, Some(suite)) == {}; }
  }

  predicate NoWildcards(s: string) { '%' !in s && '_' !in s }

  lemma {:induction false} AnyTail(s: string)
    ensures Like(s, "%")
  {
    if s == "" { assert Like("", "%"[1..]); } else { AnyTail(s[1..]); }
  }

  /** Without wildcards in it the pattern is a plain prefix test. */
  lemma {:induction false} LikeIsPrefix(s: string, prefix: string)
    requires NoWildcards(prefix)
    ensures Like(s, prefix + "%") <==> prefix <= s
  {
    if prefix == "" {
      AnyTail(s);
      assert "" + "%" == "%";
    } else {
      assert (prefix + "%")[1..] == prefix[1..] + "%";
      if s != "" {
        LikeIsPrefix(s[1..], prefix[1..]);
        assert prefix <= s <==> prefix[0] == s[0] && prefix[1..] <= s[1..];
      }
    }
  }

  lemma {:induction false} PrefixSortsFirst(prefix: string, s: string)
    requires prefix <= s
    ensures TextOrder.Le(prefix, s)
  {
    if prefix != "" { PrefixSortsFirst(prefix[1..], s[1..]); }
  }

  /** A suite without wildcards in its name comes first among those its prefix matches. */
  lemma PlainSuiteFirst(d: Db, suite: string)
    requires suite != "" && NoWildcards(suite)
    ensures RowsAhead(d, suite) == {}
  {
    forall p | p in Divergence(d, Some(suite)) ensures !TextOrder.Lt(SuiteKey(d)(p), suite) {
      var other := SuiteKey(d)(p);
      assert InScope(d, Some(suite), p.0);
      LikeIsPrefix(other, suite);
      PrefixSortsFirst(suite, other);
      TextOrder.LtTotal(suite, other);
    }
  }

  /** An underscore in the name lets another suite in, and in front. */
  lemma WildcardAhead()
    ensures Like("aXb", "a_b" + "%") && TextOrder.Lt("aXb", "a_b")
  {
    LikeOwnPrefix("b");
    assert "b" + "%" == "b%";
    assert "a_b" + "%" == "a_b%" && "a_b%"[1..] == "_b%" && "_b%"[1..] == "b%";
    assert "aXb"[1..] == "Xb" && "Xb"[1..] == "b";
    assert 'X' < '_' && "aXb"[1..][0] == 'X' && "a_b"[1..][0] == '_';
  }

  /** Some test of the run belongs to the cohort, whatever its suite. */
  ghost predicate OccursIn(d: Db, runId: string, k: Cohort) {
    exists u :: u in d.tests && d.tests[u].runId == runId && KeyOf(d, u) == TestKey(k.name, k.framework, k.dutTop)
  }

  /** One divergent cohort is among the run's cohorts exactly when it has a test in the run. */
  lemma DivergentCohortInRun(d: Db, suite: Option<string>, runId: string, k: Cohort)
    requires runId != "" && k in DivergentInSuite(d, suite)
    ensures k in MultiSimCohorts(d, suite, Some(runId)) <==> OccursIn(d, runId, k)
  {
    hide Latest;
    var p :| p in Divergence(d, suite) && PairCohort(d)(p) == k;
    var a, b := p.0, p.1;
    assert Diverges(d, suite, a, b) && Joined(d, a) && Joined(d, b) by {
      LatestJoined(d, suite, a);
      LatestJoined(d, suite, b);
    }
    assert KeyOf(d, a) == TestKey(k.name, k.framework, k.dutTop) == KeyOf(d, b);
    if OccursIn(d, runId, k) {
      TextOrder.LtTotal(VendorOf(d, a).value, VendorOf(d, b).value);
      assert SharedWithRun(d, Some(runId), a) && SharedWithRun(d, Some(runId), b);
      assert MultiSim(d, suite, Some(runId), k);
    }
    if k in MultiSimCohorts(d, suite, Some(runId)) { SharedOccurs(d, suite, runId, k); }
  }

  lemma LatestJoined(d: Db, prefix: Option<string>, t: string)
    ensures Latest(d, prefix, t) ==> Joined(d, t)
  {
  }

  lemma SharedOccurs(d: Db, suite: Option<string>, runId: string, k: Cohort)
    requires runId != "" && MultiSim(d, suite, Some(runId), k)
    ensures OccursIn(d, runId, k)
  {
    var a, b :|
      && Joined(d, a) && Joined(d, b) && CohortOf(d, a) == k == CohortOf(d, b)
      && SharedWithRun(d, Some(runId), a) && SharedWithRun(d, Some(runId), b)
      && Decided(d, a) && Decided(d, b)
      && VendorOf(d, a).Some? && VendorOf(d, b).Some? && VendorOf(d, a) != VendorOf(d, b);
    assert KeyOf(d, a) == TestKey(k.name, k.framework, k.dutTop);
  }

  /**
   With a run filter only the cohorts are narrowed to the tests of the run, the divergences are not:
   they stay within the cohorts exactly when every divergent cohort has a test in the run.
   */
  lemma DivergentWithinRunExact(d: Db, suite: Option<string>, runId: string)
    requires runId != ""
    ensures DivergentInSuite(d, suite) <= MultiSimCohorts(d, suite, Some(runId))
      <==> forall k :: k in DivergentInSuite(d, suite) ==> OccursIn(d, runId, k)
  {
    forall k | k in DivergentInSuite(d, suite)
      ensures k in MultiSimCohorts(d, suite, Some(runId)) <==> OccursIn(d, runId, k)
    {
      DivergentCohortInRun(d, suite, runId, k);
    }
  }

  // ---- repeated and flaky tests ----

  /** The scope of both counts: a suite, and optionally only tests that also occur in one run. */
  ghost predicate InHistory(d: Db, suite: Option<string>, runId: Option<string>, t: string) {
    && t in d.tests
    && (suite.Some? && suite.value != "" ==> Joined(d, t) && CohortOf(d, t).suite == suite.value)
    && SharedWithRun(d, runId, t)
  }

  /** Tests with both a passing and a failing result. */
  ghost function FlakyTests(d: Db, suite: Option<string>, runId: Option<string>): set<TestKey> {
    set t, u | t in d.tests && u in d.tests
        && InHistory(d, suite, runId, t) && InHistory(d, suite, runId, u) && KeyOf(d, t) == KeyOf(d, u)
        && StatusOf(d, t) == "pass" && StatusOf(d, u) == "fail"
      :: KeyOf(d, t)
  }

  /** Tests with results in two runs at least. */
  ghost function RepeatedTests(d: Db, suite: Option<string>, runId: Option<string>): set<TestKey> {
    set t, u | t in d.tests && u in d.tests
        && InHistory(d, suite, runId, t) && InHistory(d, suite, runId, u) && KeyOf(d, t) == KeyOf(d, u)
        && d.tests[t].runId != d.tests[u].runId
      :: KeyOf(d, t)
  }

  /** With one row per run, framework and name, a flaky test has results in two runs. */
  lemma FlakyWithinRepeated(d: Db, suite: Option<string>, runId: Option<string>)
    requires IndexInvariants.OneRowPerTest(d.tests)
    ensures FlakyTests(d, suite, runId) <= RepeatedTests(d, suite, runId)
    ensures |FlakyTests(d, suite, runId)| <= |RepeatedTests(d, suite, runId)|
  {
    SubsetCard(FlakyTests(d, suite, runId), RepeatedTests(d, suite, runId));
  }
}
