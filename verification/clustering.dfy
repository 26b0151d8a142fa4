/** Failures grouped by signature, the largest groups first. */
module Clustering {
  import opened Common
  import opened StoreModel
  import Sorting
  import TextOrder
  import Pagination

  datatype Failing = Failing(
    testId: string, runId: string, message: string, summary: string,
    signatureId: Option<string>, severity: string, category: string)

  /** The failures of one run, or of all runs. */
  function FailuresInScope(d: Db, runId: Option<string>): set<string> {
    set f | f in d.failures && (Pagination.GivenText(runId) ==> d.failures[f].runId == runId.value)
  }

  /** `SELECT ... FROM failures ... ORDER BY failure_id` */
  function FailureRows(d: Db, runId: Option<string>): (r: seq<Failing>)
    ensures |r| == |FailuresInScope(d, runId)|
  {
    var ids := TextOrder.Sorted(FailuresInScope(d, runId));
    TextOrder.SortedCard(FailuresInScope(d, runId));
    RowsFor(d, ids)
  }

  function RowsFor(d: Db, ids: seq<string>): (r: seq<Failing>)
    requires forall f :: f in ids ==> f in d.failures
    ensures |r| == |ids| && forall i :: 0 <= i < |ids| ==> ids[i] in d.failures && r[i] == RowOf(d, ids[i])
  {
    seq(|ids|, i requires 0 <= i < |ids| => assert ids[i] in ids; RowOf(d, ids[i]))
  }

  function RowOf(d: Db, id: string): Failing
    requires id in d.failures
  {
    var f := d.failures[id];
    Failing(f.testId, f.runId, f.message, f.summary, f.signatureId, f.severity, f.category)
  }

  /** The message, or the summary when there is none. */
  function RawText(r: Failing): string { if r.message != "" then r.message else r.summary }

  /** The stored signature, or else the normalised start of the text. */
  function SignatureOf(normalise: string -> string): Failing -> string {
    (r: Failing) =>
      if r.signatureId.Some? && r.signatureId.value != "" then r.signatureId.value
      else normalise(Take(RawText(r), 200))
  }

  function SeverityOf(): Failing -> string { (r: Failing) => r.severity }

  function CategoryOf(): Failing -> string { (r: Failing) => r.category }

  /** The rows with one value of a key. */
  function WithKey(key: Failing -> string, k: string): Failing -> bool { (r: Failing) => key(r) == k }

  function Members(rows: seq<Failing>, key: Failing -> string, k: string): seq<Failing> {
    Filter(rows, WithKey(key, k))
  }

  datatype Cluster = Cluster(
    count: nat, testIds: set<string>, runIds: set<string>,
    severities: map<string, nat>, categories: map<string, nat>,
    firstTest: string, firstText: string)

  /** `counts.get(k, 0)` is the number of rows with that key, and no key is there without a row. */
  ghost predicate CountsBy(counts: map<string, nat>, rows: seq<Failing>, key: Failing -> string) {
    && (forall k :: Lookup(counts, k).GetOr(0) == |Members(rows, key, k)|)
    && forall k :: k in counts ==> counts[k] > 0
  }

  /** What a cluster says about the rows it was made from. */
  ghost predicate Describes(c: Cluster, rows: seq<Failing>) {
    && rows != [] && c.count == |rows|
    && (forall t :: t in c.testIds <==> exists r :: r in rows && r.testId == t)
    && (forall t :: t in c.runIds <==> exists r :: r in rows && r.runId == t)
    && CountsBy(c.severities, rows, SeverityOf())
    && CountsBy(c.categories, rows, CategoryOf())
    && c.firstTest == rows[0].testId && c.firstText == Take(RawText(rows[0]), 200)
  }

  function Bump(counts: map<string, nat>, k: string): map<string, nat> {
    counts[k := Lookup(counts, k).GetOr(0) + 1]
  }

  lemma MembersSnoc(rows: seq<Failing>, r: Failing, key: Failing -> string, k: string)
    ensures Members(rows + [r], key, k) == if key(r) == k then Members(rows, key, k) + [r] else Members(rows, key, k)
  {
    FilterConcat(rows, [r], WithKey(key, k));
    FilterCons(r, [], WithKey(key, k));
    assert [r] + [] == [r];
    assert Members(rows, key, k) + [] == Members(rows, key, k);
  }

  lemma BumpCounts(counts: map<string, nat>, rows: seq<Failing>, r: Failing, key: Failing -> string)
    requires CountsBy(counts, rows, key)
    ensures CountsBy(Bump(counts, key(r)), rows + [r], key)
  {
    forall k ensures Lookup(Bump(counts, key(r)), k).GetOr(0) == |Members(rows + [r], key, k)| {
      MembersSnoc(rows, r, key, k);
      assert Lookup(counts, k).GetOr(0) == |Members(rows, key, k)|;
    }
  }

  /** One more row of a cluster. */
  function Extend(c: Option<Cluster>, r: Failing): Cluster {
    match c
    case None =>
      Cluster(1, {r.testId}, {r.runId}, Bump(map[], r.severity), Bump(map[], r.category),
              r.testId, Take(RawText(r), 200))
    case Some(c) =>
      Cluster(c.count + 1, c.testIds + {r.testId}, c.runIds + {r.runId},
              Bump(c.severities, r.severity), Bump(c.categories, r.category), c.firstTest, c.firstText)
  }

  lemma ExtendDescribes(c: Option<Cluster>, rows: seq<Failing>, r: Failing)
    requires match c case None => rows == [] case Some(x) => Describes(x, rows)
    ensures Describes(Extend(c, r), rows + [r])
  {
    var s, g := if c.Some? then c.value.severities else map[], if c.Some? then c.value.categories else map[];
    if c.None? {
      assert CountsBy(s, rows, SeverityOf()) && CountsBy(g, rows, CategoryOf());
      assert rows + [r] == [r];
    }
    BumpCounts(s, rows, r, SeverityOf());
    BumpCounts(g, rows, r, CategoryOf());
    assert forall x :: x in rows + [r] <==> x in rows || x == r;
  }

  /** The dictionary of clusters says about every signature what the rows with that signature say. */
  ghost predicate Grouped(clusters: map<string, Cluster>, rows: seq<Failing>, key: Failing -> string) {
    forall k :: GroupedAt(clusters, rows, key, k)
  }

  ghost predicate GroupedAt(clusters: map<string, Cluster>, rows: seq<Failing>, key: Failing -> string, k: string) {
    && (k in clusters <==> Members(rows, key, k) != [])
    && (k in clusters ==> Describes(clusters[k], Members(rows, key, k)))
  }

  method Collect(rows: seq<Failing>, normalise: string -> string) returns (clusters: map<string, Cluster>)
    ensures Grouped(clusters, rows, SignatureOf(normalise))
  {
    clusters := map[];
    ghost var key := SignatureOf(normalise);
    for i := 0 to |rows|
      invariant Grouped(clusters, rows[..i], key)
    {
      var r := rows[i];
      var sig := SignatureOf(normalise)(r);
      ghost var before := clusters;
      ghost var upTo := rows[..i + 1];
      assert upTo == rows[..i] + [r];
      clusters := clusters[sig := Extend(Lookup(clusters, sig), r)];
      forall k ensures GroupedAt(clusters, upTo, key, k) {
        assert GroupedAt(before, rows[..i], key, k);
        MembersSnoc(rows[..i], r, key, k);
        if k == sig { ExtendDescribes(Lookup(before, sig), Members(rows[..i], key, sig), r); }
      }
    }
    assert rows[..|rows|] == rows;
  }

  // ---- grouping by any key splits the rows ----

  function SizeBy(rows: seq<Failing>, key: Failing -> string): string -> int {
    (k: string) => |Members(rows, key, k)|
  }

  lemma {:induction false} SumBump(ks: set<string>, f: string -> int, g: string -> int, k: string)
    requires forall x :: x in ks ==> g(x) == f(x) + if x == k then 1 else 0
    ensures SumOver(ks, g) == SumOver(ks, f) + if k in ks then 1 else 0
    decreases ks
  {
    if ks != {} {
      var x :| x in ks;
      SumOverRemove(ks, x, f);
      SumOverRemove(ks, x, g);
      SumBump(ks - {x}, f, g, k);
    }
  }

  /** Whatever the key, the groups of all occurring keys have as many rows together as there are rows. */
  lemma {:induction false} GroupsAddUp(rows: seq<Failing>, key: Failing -> string, ks: set<string>)
    requires forall r :: r in rows ==> key(r) in ks
    ensures SumOver(ks, SizeBy(rows, key)) == |rows|
  {
    if rows == [] {
      AllZero(ks, SizeBy(rows, key));
    } else {
      var n := |rows| - 1;
      GroupsAddUp(rows[..n], key, ks);
      assert rows == rows[..n] + [rows[n]];
      forall x | x in ks
        ensures SizeBy(rows, key)(x) == SizeBy(rows[..n], key)(x) + if x == key(rows[n]) then 1 else 0
      {
        MembersSnoc(rows[..n], rows[n], key, x);
      }
      SumBump(ks, SizeBy(rows[..n], key), SizeBy(rows, key), key(rows[n]));
    }
  }

  lemma {:induction false} AllZero(ks: set<string>, f: string -> int)
    requires forall k :: k in ks ==> f(k) == 0
    ensures SumOver(ks, f) == 0
    decreases ks
  {
    if ks != {} {
      var k :| k in ks;
      SumOverRemove(ks, k, f);
      AllZero(ks - {k}, f);
    }
  }

  function CountFn(counts: map<string, nat>): string -> int { (k: string) => if k in counts then counts[k] else 0 }

  /** The counts of a count dictionary add up to the rows it was counted from. */
  lemma CountsAddUp(counts: map<string, nat>, rows: seq<Failing>, key: Failing -> string)
    requires CountsBy(counts, rows, key)
    ensures SumOver(counts.Keys, CountFn(counts)) == |rows|
  {
    forall r | r in rows ensures key(r) in counts.Keys {
      FilterMembers(rows, WithKey(key, key(r)));
      assert r in Members(rows, key, key(r));
      assert Lookup(counts, key(r)).GetOr(0) == |Members(rows, key, key(r))|;
    }
    GroupsAddUp(rows, key, counts.Keys);
    forall k | k in counts.Keys ensures CountFn(counts)(k) == SizeBy(rows, key)(k) {
      assert Lookup(counts, k).GetOr(0) == |Members(rows, key, k)|;
    }
    SumOverExt(counts.Keys, CountFn(counts), SizeBy(rows, key));
  }

  function ClusterCount(clusters: map<string, Cluster>): string -> int {
    (k: string) => if k in clusters then clusters[k].count else 0
  }

  /**
   Clustering splits the failures: the cluster counts add up to the number of failures, and within
   each cluster the severity counts and the category counts both add up to its count.
   */
  lemma ClustersPartition(clusters: map<string, Cluster>, rows: seq<Failing>, normalise: string -> string)
    requires Grouped(clusters, rows, SignatureOf(normalise))
    ensures SumOver(clusters.Keys, ClusterCount(clusters)) == |rows|
    ensures forall k :: k in clusters ==>
      && SumOver(clusters[k].severities.Keys, CountFn(clusters[k].severities)) == clusters[k].count
      && SumOver(clusters[k].categories.Keys, CountFn(clusters[k].categories)) == clusters[k].count
  {
    var key := SignatureOf(normalise);
    forall r | r in rows ensures key(r) in clusters.Keys {
      FilterMembers(rows, WithKey(key, key(r)));
      assert GroupedAt(clusters, rows, key, key(r));
      assert r in Members(rows, key, key(r));
    }
    GroupsAddUp(rows, key, clusters.Keys);
    forall k | k in clusters.Keys ensures ClusterCount(clusters)(k) == SizeBy(rows, key)(k) {
      assert GroupedAt(clusters, rows, key, k);
    }
    SumOverExt(clusters.Keys, ClusterCount(clusters), SizeBy(rows, key));
    forall k | k in clusters
      ensures SumOver(clusters[k].severities.Keys, CountFn(clusters[k].severities)) == clusters[k].count
      ensures SumOver(clusters[k].categories.Keys, CountFn(clusters[k].categories)) == clusters[k].count
    {
      assert GroupedAt(clusters, rows, key, k);
      CountsAddUp(clusters[k].severities, Members(rows, key, k), SeverityOf());
      CountsAddUp(clusters[k].categories, Members(rows, key, k), CategoryOf());
    }
  }

  // ---- ranking ----

  datatype Entry = Entry(signature: string, cluster: Cluster)

  /** The larger cluster first; equal ones by signature. */
  predicate EntryLe(a: Entry, b: Entry) {
    a.cluster.count > b.cluster.count || (a.cluster.count == b.cluster.count && TextOrder.Le(a.signature, b.signature))
  }

  lemma EntryOrder()
    ensures Sorting.TotalPreorder(EntryLe)
  {
    forall a, b ensures EntryLe(a, b) || EntryLe(b, a) { TextOrder.LeTotal(a.signature, b.signature); }
    forall a, b, c | EntryLe(a, b) && EntryLe(b, c) ensures EntryLe(a, c) {
      if TextOrder.Le(a.signature, b.signature) && TextOrder.Le(b.signature, c.signature) {
        TextOrder.LeTransitive(a.signature, b.signature, c.signature);
      }
    }
  }

  function Items(clusters: map<string, Cluster>): (r: seq<Entry>)
    ensures forall i :: 0 <= i < |r| ==> r[i].signature in clusters && r[i].cluster == clusters[r[i].signature]
    ensures forall i, j :: 0 <= i < j < |r| ==> r[i].signature != r[j].signature
    ensures forall k :: k in clusters ==> exists i :: 0 <= i < |r| && r[i].signature == k
  {
    var names := TextOrder.Sorted(clusters.Keys);
    var r := seq(|names|, i requires 0 <= i < |names| => assert names[i] in names; Entry(names[i], clusters[names[i]]));
    assert forall k :: k in clusters ==> k in names;
    assert forall i :: 0 <= i < |names| ==> r[i].signature == names[i] && names[i] in names;
    r
  }

  function Ranking(clusters: map<string, Cluster>): seq<Entry> { Sorting.Sort(Items(clusters), EntryLe) }

  /** Strictly decreasing counts, or equal counts with strictly increasing signatures. */
  ghost predicate StrictlyRanked(es: seq<Entry>) {
    forall i, j :: 0 <= i < j < |es| ==>
      || es[i].cluster.count > es[j].cluster.count
      || (es[i].cluster.count == es[j].cluster.count && TextOrder.Lt(es[i].signature, es[j].signature))
  }

  lemma TwiceThere(b: seq<Entry>, i: nat, j: nat)
    requires i < j < |b| && b[i] == b[j]
    ensures multiset(b)[b[i]] >= 2
  {
    var front, back := b[..j], b[j..];
    assert b == front + back && front[i] == b[i] && back[0] == b[i];
    assert b[i] in front && b[i] in back;
    assert multiset(b) == multiset(front) + multiset(back);
  }

  lemma DistinctAfterSort(a: seq<Entry>, b: seq<Entry>, i: nat, j: nat)
    requires multiset(a) == multiset(b) && i < j < |b|
    requires forall x, y :: 0 <= x < y < |a| ==> a[x].signature != a[y].signature
    ensures b[i].signature != b[j].signature
  {
    assert b[i] in multiset(a) && b[j] in multiset(a);
    var x :| 0 <= x < |a| && a[x] == b[i];
    var y :| 0 <= y < |a| && a[y] == b[j];
    if x == y {
      TwiceThere(b, i, j);
      OnceOnly(a, x);
    }
  }

  lemma OnceOnly(a: seq<Entry>, x: nat)
    requires x < |a| && forall u, v :: 0 <= u < v < |a| ==> a[u].signature != a[v].signature
    ensures multiset(a)[a[x]] == 1
  {
    assert a == a[..x] + [a[x]] + a[x + 1..];
    assert a[x] !in a[..x] && a[x] !in a[x + 1..];
  }

  /** The ranking lists every cluster once, in strict order. */
  lemma RankingMeaning(clusters: map<string, Cluster>)
    ensures StrictlyRanked(Ranking(clusters))
    ensures multiset(Ranking(clusters)) == multiset(Items(clusters))
    ensures |Ranking(clusters)| == |Items(clusters)|
  {
    var items, es := Items(clusters), Ranking(clusters);
    EntryOrder();
    Sorting.SortPermutes(items, EntryLe);
    Sorting.SortSorted(items, EntryLe);
    forall i, j | 0 <= i < j < |es|
      ensures es[i].cluster.count > es[j].cluster.count
        || (es[i].cluster.count == es[j].cluster.count && TextOrder.Lt(es[i].signature, es[j].signature))
    {
      assert EntryLe(es[i], es[j]);
      DistinctAfterSort(items, es, i, j);
    }
  }

  /** What is kept is in strict order, and nothing dropped is larger than anything kept. */
  lemma CutRanking(clusters: map<string, Cluster>, n: nat)
    ensures var all, kept := Ranking(clusters), Take(Ranking(clusters), n);
      && StrictlyRanked(kept)
      && forall i, j :: 0 <= i < |kept| <= j < |all| ==> all[j].cluster.count <= kept[i].cluster.count
  {
    RankingMeaning(clusters);
    var all, kept := Ranking(clusters), Take(Ranking(clusters), n);
    assert forall i :: 0 <= i < |kept| ==> kept[i] == all[i];
  }

  /** A cluster as it is reported: at most fifty ids of each kind, and the number there are. */
  datatype Shown = Shown(
    signature: string, count: nat, distinctTests: nat, distinctRuns: nat,
    firstTest: string, firstText: string,
    testIds: seq<string>, testsTruncated: bool, runIds: seq<string>, runsTruncated: bool,
    severities: map<string, nat>, categories: map<string, nat>)

  function Show(e: Entry): Shown {
    var tests, runs := TextOrder.Sorted(e.cluster.testIds), TextOrder.Sorted(e.cluster.runIds);
    Shown(
      e.signature, e.cluster.count, |tests|, |runs|, e.cluster.firstTest, e.cluster.firstText,
      Take(tests, 50), |tests| > 50, Take(runs, 50), |runs| > 50, e.cluster.severities, e.cluster.categories)
  }

  /** No id left out sorts before one that is listed, and the flag says whether any is left out. */
  lemma ShownIds(e: Entry)
    ensures var r := Show(e);
      && r.distinctTests == |e.cluster.testIds| && |r.testIds| == Min(50, r.distinctTests)
      && (forall t :: t in r.testIds ==> t in e.cluster.testIds)
      && (r.testsTruncated <==> exists t :: t in e.cluster.testIds && t !in r.testIds)
      && forall t, u :: t in r.testIds && u in e.cluster.testIds && u !in r.testIds ==> TextOrder.Lt(t, u)
    ensures var r := Show(e);
      && r.distinctRuns == |e.cluster.runIds| && |r.runIds| == Min(50, r.distinctRuns)
      && (forall t :: t in r.runIds ==> t in e.cluster.runIds)
      && (r.runsTruncated <==> exists t :: t in e.cluster.runIds && t !in r.runIds)
      && forall t, u :: t in r.runIds && u in e.cluster.runIds && u !in r.runIds ==> TextOrder.Lt(t, u)
  {
    TextOrder.SortedCard(e.cluster.testIds);
    TextOrder.SortedCard(e.cluster.runIds);
    FirstOfSorted(e.cluster.testIds, 50);
    FirstOfSorted(e.cluster.runIds, 50);
  }

  lemma FirstOfSorted(s: set<string>, n: nat)
    ensures var first := Take(TextOrder.Sorted(s), n);
      && (forall t :: t in first ==> t in s)
      && (|s| > n <==> exists t :: t in s && t !in first)
      && forall t, u :: t in first && u in s && u !in first ==> TextOrder.Lt(t, u)
  {
    hide TextOrder.Lt;
    TextOrder.SortedCard(s);
    var all, first := TextOrder.Sorted(s), Take(TextOrder.Sorted(s), n);
    assert forall i :: 0 <= i < |first| ==> first[i] == all[i];
    forall t, u | t in first && u in s && u !in first ensures TextOrder.Lt(t, u) {
      var i :| 0 <= i < |first| && first[i] == t;
      assert u in all;
      var j :| 0 <= j < |all| && all[j] == u;
      assert forall k :: 0 <= k < |first| ==> first[k] != u;
      assert j >= |first|;
    }
    if |s| > n {
      assert all[n] in all;
      forall i | 0 <= i < |first| ensures first[i] != all[n] { LtIsStrict(all[i], all[n]); }
    } else {
      assert first == all;
    }
  }

  lemma LtIsStrict(a: string, b: string)
    requires TextOrder.Lt(a, b)
    ensures a != b
  {
  }

  datatype Answer = Answer(clusters: seq<Shown>, totalFailures: nat, totalClusters: nat, truncated: bool)

  function ShowAll(es: seq<Entry>): (r: seq<Shown>)
    ensures |r| == |es| && forall i :: 0 <= i < |es| ==> r[i] == Show(es[i])
  {
    seq(|es|, i requires 0 <= i < |es| => Show(es[i]))
  }

  function AnswerFor(clusters: map<string, Cluster>, rows: seq<Failing>, maxClusters: nat): Answer {
    var ranked := Ranking(clusters);
    Answer(ShowAll(Take(ranked, maxClusters)), |rows|, |ranked|, |ranked| > maxClusters)
  }

  // ---- what a cluster says about the index ----

  /** The failure is in scope and falls under the signature: its own, or the normalised start of its text. */
  predicate FallsUnder(d: Db, runId: Option<string>, normalise: string -> string, signature: string, f: string) {
    && f in d.failures && (runId == None || runId.value == "" || d.failures[f].runId == runId.value)
    && var x := d.failures[f];
       if x.signatureId.GetOr("") != "" then x.signatureId == Some(signature)
       else signature == normalise(Take(if x.message != "" then x.message else x.summary, 200))
  }

  /** The failures under a signature that also satisfy a condition. */
  function Under(d: Db, runId: Option<string>, normalise: string -> string, signature: string, q: string -> bool)
    : set<string>
  {
    set f | f in d.failures && FallsUnder(d, runId, normalise, signature, f) && q(f)
  }

  function All(): string -> bool { (f: string) => true }

  function SeverityIs(d: Db, s: string): string -> bool {
    (f: string) => f in d.failures && d.failures[f].severity == s
  }

  function CategoryIs(d: Db, c: string): string -> bool {
    (f: string) => f in d.failures && d.failures[f].category == c
  }

  /** The least failure id of the cluster gives it its test and its text. */
  ghost predicate Leads(d: Db, runId: Option<string>, normalise: string -> string, c: Shown, f: string) {
    && FallsUnder(d, runId, normalise, c.signature, f)
    && (forall g :: FallsUnder(d, runId, normalise, c.signature, g) ==> TextOrder.Le(f, g))
    && c.firstTest == d.failures[f].testId
    && c.firstText == Take(if d.failures[f].message != "" then d.failures[f].message else d.failures[f].summary, 200)
  }

  /** Everything a reported cluster states, said of the failures in the index. */
  ghost predicate Reports(d: Db, runId: Option<string>, normalise: string -> string, c: Shown) {
    && c.count == |Under(d, runId, normalise, c.signature, All())| > 0
    && (forall s :: Lookup(c.severities, s).GetOr(0) == |Under(d, runId, normalise, c.signature, SeverityIs(d, s))|)
    && (forall s :: Lookup(c.categories, s).GetOr(0) == |Under(d, runId, normalise, c.signature, CategoryIs(d, s))|)
    && c.distinctTests == |TestsUnder(d, runId, normalise, c.signature)|
    && c.distinctRuns == |RunsUnder(d, runId, normalise, c.signature)|
    && (forall t :: t in c.testIds ==> t in TestsUnder(d, runId, normalise, c.signature))
    && (forall r :: r in c.runIds ==> r in RunsUnder(d, runId, normalise, c.signature))
    && exists f :: Leads(d, runId, normalise, c, f)
  }

  function TestsUnder(d: Db, runId: Option<string>, normalise: string -> string, signature: string): set<string> {
    set f | f in d.failures && FallsUnder(d, runId, normalise, signature, f) :: d.failures[f].testId
  }

  function RunsUnder(d: Db, runId: Option<string>, normalise: string -> string, signature: string): set<string> {
    set f | f in d.failures && FallsUnder(d, runId, normalise, signature, f) :: d.failures[f].runId
  }

  function Both<T>(p: T -> bool, q: T -> bool): T -> bool { (x: T) => p(x) && q(x) }

  lemma {:induction false} FilterTwice<T>(s: seq<T>, p: T -> bool, q: T -> bool)
    ensures Filter(Filter(s, p), q) == Filter(s, Both(p, q))
  {
    if s != [] {
      FilterTwice(s[1..], p, q);
      if p(s[0]) { FilterCons(s[0], Filter(s[1..], p), q); }
    }
  }

  /** Rows kept by a condition are as many as the failures that satisfy it. */
  lemma {:induction false} RowsKept(d: Db, ids: seq<string>, p: Failing -> bool, q: string -> bool)
    requires (forall f :: f in ids ==> f in d.failures) && forall i, j :: 0 <= i < j < |ids| ==> ids[i] != ids[j]
    requires forall f :: f in d.failures && f in ids ==> (q(f) <==> p(RowOf(d, f)))
    ensures |Filter(RowsFor(d, ids), p)| == |set f | f in ids && q(f)|
  {
    hide Filter, RowOf, RowsFor;
    if ids == [] {
      NoneKept(d, p);
    } else {
      var first, tail := ids[0], ids[1..];
      assert ids == [first] + tail && first in ids && first !in tail;
      assert forall f :: f in tail ==> f in ids;
      RowsKept(d, tail, p, q);
      assert RowsFor(d, ids) == [RowOf(d, first)] + RowsFor(d, tail);
      FilterCons(RowOf(d, first), RowsFor(d, tail), p);
      OneMoreKept(first, tail, q);
    }
  }

  lemma NoneKept(d: Db, p: Failing -> bool)
    ensures Filter(RowsFor(d, []), p) == []
  {
  }

  lemma OneMoreKept(first: string, tail: seq<string>, q: string -> bool)
    requires first !in tail
    ensures var all, rest := set f | f in [first] + tail && q(f), set f | f in tail && q(f);
      |all| == |rest| + if q(first) then 1 else 0
  {
    var all, rest := set f | f in [first] + tail && q(f), set f | f in tail && q(f);
    if q(first) { assert all == rest + {first}; } else { assert all == rest; }
  }

  lemma SignatureMeaning(d: Db, runId: Option<string>, normalise: string -> string, signature: string, f: string)
    requires f in d.failures
    ensures FallsUnder(d, runId, normalise, signature, f)
      <==> f in FailuresInScope(d, runId) && SignatureOf(normalise)(RowOf(d, f)) == signature
  {
    var x := d.failures[f];
    assert f in FailuresInScope(d, runId) <==> runId == None || runId.value == "" || x.runId == runId.value;
    assert RawText(RowOf(d, f)) == if x.message != "" then x.message else x.summary;
    assert SignatureOf(normalise)(RowOf(d, f))
      == if x.signatureId.GetOr("") != "" then x.signatureId.value else normalise(Take(RawText(RowOf(d, f)), 200));
  }

  lemma CountedUnder(
    d: Db, runId: Option<string>, normalise: string -> string, signature: string,
    p: Failing -> bool, q: string -> bool)
    requires forall f :: f in d.failures ==> (q(f) <==> p(RowOf(d, f)))
    ensures |Filter(Members(FailureRows(d, runId), SignatureOf(normalise), signature), p)|
      == |Under(d, runId, normalise, signature, q)|
  {
    hide RowsFor, RowOf, Under, FailuresInScope, SignatureOf, TextOrder.Le, Filter, WithKey, Both, TextOrder.Sorted;
    var both := Both(WithKey(SignatureOf(normalise), signature), p);
    var ids := TextOrder.Sorted(FailuresInScope(d, runId));
    var member: string -> bool := (f: string) => f in Under(d, runId, normalise, signature, q);
    ScopeIsIndexed(d, runId);
    FilterTwice(FailureRows(d, runId), WithKey(SignatureOf(normalise), signature), p);
    forall f | f in d.failures && f in ids ensures member(f) <==> both(RowOf(d, f)) {
      KeptAlike(d, runId, normalise, signature, p, q, f);
    }
    assert forall i, j :: 0 <= i < j < |ids| ==> ids[i] != ids[j] by { LtIsStrictThroughout(ids); }
    RowsKept(d, ids, both, member);
    assert (set f | f in ids && member(f)) == Under(d, runId, normalise, signature, q) by {
      UnderInScope(d, runId, normalise, signature, q);
    }
  }

  lemma LtIsStrictThroughout(ids: seq<string>)
    requires TextOrder.StrictlySorted(ids)
    ensures forall i, j :: 0 <= i < j < |ids| ==> ids[i] != ids[j]
  {
  }

  lemma KeptAlike(
    d: Db, runId: Option<string>, normalise: string -> string, signature: string,
    p: Failing -> bool, q: string -> bool, f: string)
    requires f in FailuresInScope(d, runId) && f in d.failures && (q(f) <==> p(RowOf(d, f)))
    ensures f in Under(d, runId, normalise, signature, q)
      <==> Both(WithKey(SignatureOf(normalise), signature), p)(RowOf(d, f))
  {
    hide SignatureOf, FallsUnder, RowOf, FailuresInScope;
    SignatureMeaning(d, runId, normalise, signature, f);
  }

  lemma UnderInScope(d: Db, runId: Option<string>, normalise: string -> string, signature: string, q: string -> bool)
    ensures Under(d, runId, normalise, signature, q) <= FailuresInScope(d, runId)
  {
  }

  lemma ScopeIsIndexed(d: Db, runId: Option<string>)
    ensures forall f :: f in FailuresInScope(d, runId) ==> f in d.failures
  {
  }

  /** The rows under a signature are those of the failures under it. */
  lemma MembersMeaning(d: Db, runId: Option<string>, normalise: string -> string, signature: string)
    ensures var rows := Members(FailureRows(d, runId), SignatureOf(normalise), signature);
      && (forall r :: r in rows ==> exists f :: FallsUnder(d, runId, normalise, signature, f) && r == RowOf(d, f))
      && (forall f :: FallsUnder(d, runId, normalise, signature, f) ==> RowOf(d, f) in rows)
  {
    hide FallsUnder, FailuresInScope, SignatureOf, TextOrder.Le, Filter, TextOrder.Sorted, RowOf;
    var ids, all := TextOrder.Sorted(FailuresInScope(d, runId)), FailureRows(d, runId);
    var p := WithKey(SignatureOf(normalise), signature);
    ScopeIsIndexed(d, runId);
    FallsIsIndexed(d, runId, normalise, signature);
    FilterMembers(all, p);
    forall r | r in Filter(all, p)
      ensures exists f :: FallsUnder(d, runId, normalise, signature, f) && r == RowOf(d, f)
    {
      var i :| 0 <= i < |all| && all[i] == r;
      assert ids[i] in ids;
      SignatureMeaning(d, runId, normalise, signature, ids[i]);
    }
    forall f | FallsUnder(d, runId, normalise, signature, f) ensures RowOf(d, f) in Filter(all, p) {
      FallsIsIndexed(d, runId, normalise, signature);
      SignatureMeaning(d, runId, normalise, signature, f);
      assert f in ids;
      var i :| 0 <= i < |ids| && ids[i] == f;
      assert all[i] == RowOf(d, f);
    }
  }

  lemma FallsIsIndexed(d: Db, runId: Option<string>, normalise: string -> string, signature: string)
    ensures forall f :: FallsUnder(d, runId, normalise, signature, f) ==> f in d.failures
  {
  }

  lemma {:induction false} FirstKept(d: Db, ids: seq<string>, p: Failing -> bool) returns (i: nat)
    requires (forall f :: f in ids ==> f in d.failures) && Filter(RowsFor(d, ids), p) != []
    ensures i < |ids| && Filter(RowsFor(d, ids), p)[0] == RowsFor(d, ids)[i] && p(RowsFor(d, ids)[i])
    ensures forall j :: 0 <= j < i ==> !p(RowsFor(d, ids)[j])
  {
    if p(RowsFor(d, ids)[0]) {
      i := 0;
    } else {
      assert forall f :: f in ids[1..] ==> f in ids;
      assert RowsFor(d, ids)[1..] == RowsFor(d, ids[1..]);
      var k := FirstKept(d, ids[1..], p);
      i := k + 1;
    }
  }

  /** The first row under a signature is that of the least failure id under it. */
  lemma FirstMember(d: Db, runId: Option<string>, normalise: string -> string, signature: string) returns (f: string)
    requires Members(FailureRows(d, runId), SignatureOf(normalise), signature) != []
    ensures FallsUnder(d, runId, normalise, signature, f)
    ensures RowOf(d, f) == Members(FailureRows(d, runId), SignatureOf(normalise), signature)[0]
    ensures forall g :: FallsUnder(d, runId, normalise, signature, g) ==> TextOrder.Le(f, g)
  {
    hide FallsUnder, FailuresInScope, SignatureOf, TextOrder.Le, Filter, TextOrder.Sorted, RowOf;
    var ids, all := TextOrder.Sorted(FailuresInScope(d, runId)), FailureRows(d, runId);
    ScopeIsIndexed(d, runId);
    var i := FirstKept(d, ids, WithKey(SignatureOf(normalise), signature));
    f := ids[i];
    assert f in ids;
    SignatureMeaning(d, runId, normalise, signature, f);
    forall g | FallsUnder(d, runId, normalise, signature, g) ensures TextOrder.Le(f, g) {
      FallsIsIndexed(d, runId, normalise, signature);
      SignatureMeaning(d, runId, normalise, signature, g);
      assert g in ids;
      var j :| 0 <= j < |ids| && ids[j] == g;
      assert all[j] == RowOf(d, g);
      if i == j { TextOrder.LeTotal(f, g); } else { assert TextOrder.Lt(ids[i], ids[j]); }
    }
  }

  lemma DescribedIsReported(d: Db, runId: Option<string>, normalise: string -> string, e: Entry)
    requires Describes(e.cluster, Members(FailureRows(d, runId), SignatureOf(normalise), e.signature))
    ensures Reports(d, runId, normalise, Show(e))
  {
    hide FallsUnder, FailureRows, SignatureOf, Members, TextOrder.Le, TextOrder.Sorted, CountsBy, RawText, Under;
    hide TestsUnder, RunsUnder, RowOf;
    var rows := Members(FailureRows(d, runId), SignatureOf(normalise), e.signature);
    MembersCounted(d, runId, normalise, e.signature);
    SeverityCounted(d, runId, normalise, e);
    CategoryCounted(d, runId, normalise, e);
    TestsReported(d, runId, normalise, e.signature, rows, e.cluster.testIds);
    RunsReported(d, runId, normalise, e.signature, rows, e.cluster.runIds);
    ShownIds(e);
    var f := FirstMember(d, runId, normalise, e.signature);
    FallsIsIndexed(d, runId, normalise, e.signature);
    FirstText(d, f);
    assert Leads(d, runId, normalise, Show(e), f);
  }

  lemma FirstText(d: Db, f: string)
    requires f in d.failures
    ensures RowOf(d, f).testId == d.failures[f].testId
    ensures RawText(RowOf(d, f)) == if d.failures[f].message != "" then d.failures[f].message else d.failures[f].summary
  {
  }

  lemma MembersCounted(d: Db, runId: Option<string>, normalise: string -> string, signature: string)
    ensures |Members(FailureRows(d, runId), SignatureOf(normalise), signature)|
      == |Under(d, runId, normalise, signature, All())|
  {
    hide FallsUnder, FailureRows, SignatureOf, Under, Members;
    var all: Failing -> bool := (r: Failing) => true;
    CountedUnder(d, runId, normalise, signature, all, All());
    FilterAll(Members(FailureRows(d, runId), SignatureOf(normalise), signature), all);
  }

  lemma SeverityCounted(d: Db, runId: Option<string>, normalise: string -> string, e: Entry)
    requires Describes(e.cluster, Members(FailureRows(d, runId), SignatureOf(normalise), e.signature))
    ensures forall s ::
      Lookup(e.cluster.severities, s).GetOr(0) == |Under(d, runId, normalise, e.signature, SeverityIs(d, s))|
  {
    hide FallsUnder, FailureRows, SignatureOf, Under, Filter;
    forall s ensures Lookup(e.cluster.severities, s).GetOr(0)
      == |Under(d, runId, normalise, e.signature, SeverityIs(d, s))|
    {
      CountedUnder(d, runId, normalise, e.signature, WithKey(SeverityOf(), s), SeverityIs(d, s));
    }
  }

  lemma CategoryCounted(d: Db, runId: Option<string>, normalise: string -> string, e: Entry)
    requires Describes(e.cluster, Members(FailureRows(d, runId), SignatureOf(normalise), e.signature))
    ensures forall s ::
      Lookup(e.cluster.categories, s).GetOr(0) == |Under(d, runId, normalise, e.signature, CategoryIs(d, s))|
  {
    hide FallsUnder, FailureRows, SignatureOf, Under, Filter;
    forall s ensures Lookup(e.cluster.categories, s).GetOr(0)
      == |Under(d, runId, normalise, e.signature, CategoryIs(d, s))|
    {
      CountedUnder(d, runId, normalise, e.signature, WithKey(CategoryOf(), s), CategoryIs(d, s));
    }
  }

  lemma TestsReported(
    d: Db, runId: Option<string>, normalise: string -> string, signature: string, rows: seq<Failing>, ids: set<string>)
    requires rows == Members(FailureRows(d, runId), SignatureOf(normalise), signature)
    requires forall t :: t in ids <==> exists r :: r in rows && r.testId == t
    ensures ids == TestsUnder(d, runId, normalise, signature)
  {
    hide FallsUnder, FailureRows, SignatureOf, Members, RowOf;
    MembersMeaning(d, runId, normalise, signature);
    FallsIsIndexed(d, runId, normalise, signature);
    RowIds(d);
    forall t | t in TestsUnder(d, runId, normalise, signature) ensures t in ids {
      var f :| f in d.failures && FallsUnder(d, runId, normalise, signature, f) && d.failures[f].testId == t;
      assert RowOf(d, f) in rows;
    }
    forall t | t in ids ensures t in TestsUnder(d, runId, normalise, signature) {
      var r :| r in rows && r.testId == t;
      var f :| FallsUnder(d, runId, normalise, signature, f) && r == RowOf(d, f);
    }
  }

  lemma RunsReported(
    d: Db, runId: Option<string>, normalise: string -> string, signature: string, rows: seq<Failing>, ids: set<string>)
    requires rows == Members(FailureRows(d, runId), SignatureOf(normalise), signature)
    requires forall t :: t in ids <==> exists r :: r in rows && r.runId == t
    ensures ids == RunsUnder(d, runId, normalise, signature)
  {
    hide FallsUnder, FailureRows, SignatureOf, Members, RowOf;
    MembersMeaning(d, runId, normalise, signature);
    FallsIsIndexed(d, runId, normalise, signature);
    RowIds(d);
    forall t | t in RunsUnder(d, runId, normalise, signature) ensures t in ids {
      var f :| f in d.failures && FallsUnder(d, runId, normalise, signature, f) && d.failures[f].runId == t;
      assert RowOf(d, f) in rows;
    }
    forall t | t in ids ensures t in RunsUnder(d, runId, normalise, signature) {
      var r :| r in rows && r.runId == t;
      var f :| FallsUnder(d, runId, normalise, signature, f) && r == RowOf(d, f);
    }
  }

  lemma RowIds(d: Db)
    ensures forall f :: f in d.failures ==>
      RowOf(d, f).testId == d.failures[f].testId && RowOf(d, f).runId == d.failures[f].runId
  {
  }

  /** Each reported cluster is true of the index, and there is a cluster for every signature of a failure in scope. */
  lemma ClustersAreTrue(d: Db, runId: Option<string>, clusters: map<string, Cluster>, normalise: string -> string,
                        maxClusters: nat)
    requires Grouped(clusters, FailureRows(d, runId), SignatureOf(normalise))
    ensures var r := AnswerFor(clusters, FailureRows(d, runId), maxClusters);
      && (forall i :: 0 <= i < |r.clusters| ==> Reports(d, runId, normalise, r.clusters[i]))
      && r.totalClusters == |clusters|
    ensures forall s :: s in clusters <==> exists f :: FallsUnder(d, runId, normalise, s, f)
  {
    hide FallsUnder, FailureRows, SignatureOf, Members, Describes, Reports, Ranking, Items;
    var rows, key := FailureRows(d, runId), SignatureOf(normalise);
    forall s ensures s in clusters <==> exists f :: FallsUnder(d, runId, normalise, s, f) {
      assert GroupedAt(clusters, rows, key, s);
      MembersMeaning(d, runId, normalise, s);
      var under := Members(rows, key, s);
      if under != [] { assert under[0] in under; }
    }
    RankedAreClusters(clusters);
    forall e | e in Ranking(clusters) ensures Reports(d, runId, normalise, Show(e)) {
      assert GroupedAt(clusters, rows, key, e.signature);
      DescribedIsReported(d, runId, normalise, e);
    }
    var kept := Take(Ranking(clusters), maxClusters);
    assert forall i :: 0 <= i < |kept| ==> kept[i] == Ranking(clusters)[i] && kept[i] in Ranking(clusters);
  }

  lemma RankedAreClusters(clusters: map<string, Cluster>)
    ensures forall e :: e in Ranking(clusters) ==> e.signature in clusters && e.cluster == clusters[e.signature]
    ensures |Ranking(clusters)| == |clusters|
  {
    RankingMeaning(clusters);
    var items, ranked := Items(clusters), Ranking(clusters);
    forall e | e in ranked ensures e.signature in clusters && e.cluster == clusters[e.signature] {
      assert e in multiset(ranked) && e in multiset(items);
      var i :| 0 <= i < |items| && items[i] == e;
    }
    TextOrder.SortedCard(clusters.Keys);
    assert |items| == |TextOrder.Sorted(clusters.Keys)|;
  }

  method ClusterFailures(d: Db, runId: Option<string>, normalise: string -> string, maxClusters: nat)
    returns (r: Answer, clusters: map<string, Cluster>)
    ensures Grouped(clusters, FailureRows(d, runId), SignatureOf(normalise))
    ensures r == AnswerFor(clusters, FailureRows(d, runId), maxClusters)
    ensures forall i :: 0 <= i < |r.clusters| ==> Reports(d, runId, normalise, r.clusters[i])
    ensures r.totalClusters == |clusters|
    ensures forall s :: s in clusters <==> exists f :: FallsUnder(d, runId, normalise, s, f)
  {
    hide FallsUnder, Reports;
    var rows := FailureRows(d, runId);
    clusters := Collect(rows, normalise);
    r := AnswerFor(clusters, rows, maxClusters);
    ClustersAreTrue(d, runId, clusters, normalise, maxClusters);
  }

  /**
   The answer reports totals from before the cut: its total is the number of failures in scope and
   the sum over all clusters, its clusters are in strict order, every dropped one is no larger than
   any kept one, and the flag says whether any was dropped.
   */
  lemma AnswerMeaning(
    d: Db, runId: Option<string>, clusters: map<string, Cluster>, normalise: string -> string, maxClusters: nat)
    requires Grouped(clusters, FailureRows(d, runId), SignatureOf(normalise))
    ensures var r := AnswerFor(clusters, FailureRows(d, runId), maxClusters);
      && r.totalFailures == |FailuresInScope(d, runId)| == SumOver(clusters.Keys, ClusterCount(clusters))
      && (forall i, j :: 0 <= i < j < |r.clusters| ==>
            || r.clusters[i].count > r.clusters[j].count
            || (r.clusters[i].count == r.clusters[j].count
                && TextOrder.Lt(r.clusters[i].signature, r.clusters[j].signature)))
      && (forall i, j :: 0 <= i < |r.clusters| <= j < |Ranking(clusters)| ==>
            Ranking(clusters)[j].cluster.count <= r.clusters[i].count)
      && (r.truncated <==> |r.clusters| < r.totalClusters)
  {
    hide Ranking, TextOrder.Lt;
    ClustersPartition(clusters, FailureRows(d, runId), normalise);
    CutRanking(clusters, maxClusters);
  }
}
