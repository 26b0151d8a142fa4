/** The metrics of the coverage reports in the index, one by one, as the tools ask for them. */
module CoverageQuery {
  import opened Common
  import opened Tables
  import opened StoreModel
  import Sorting
  import TextOrder

  datatype Metric = Metric(
    name: string, scope: string, kind: string, covered: real, binsMissed: seq<string>, runId: string, suite: string)

  /** What is asked for; an empty text counts as not given. */
  datatype Query = Query(runId: Option<string>, suite: Option<string>, kind: Option<string>)

  predicate Asks(wanted: Option<string>, value: Option<string>) {
    wanted.Some? && wanted.value != "" ==> value == wanted
  }

  function SuiteOf(d: Db, runId: string): Option<string> {
    if runId in d.runs then Some(d.runs[runId].suite) else None
  }

  function Selects(d: Db, q: Query): Row<Coverage> -> bool {
    (r: Row<Coverage>) =>
      && Asks(q.runId, Some(r.data.runId))
      && Asks(q.suite, SuiteOf(d, r.data.runId))
      && Asks(q.kind, Some(r.data.kind))
  }

  /** `ORDER BY run_id DESC, id ASC` */
  predicate RowLe(a: Row<Coverage>, b: Row<Coverage>) {
    if a.data.runId != b.data.runId then TextOrder.Le(b.data.runId, a.data.runId) else a.id <= b.id
  }

  function MetricsOf(d: Db, c: Coverage): (r: seq<Metric>)
    ensures |r| == |c.metrics|
    ensures forall i :: 0 <= i < |r| ==> r[i].covered == c.metrics[i].covered && r[i].name == c.metrics[i].name
  {
    seq(|c.metrics|, i requires 0 <= i < |c.metrics| =>
      var m := c.metrics[i];
      Metric(m.name, m.scope, c.kind, m.covered, m.binsMissed, c.runId, SuiteOf(d, c.runId).GetOr("unknown")))
  }

  function Flatten(d: Db, rows: seq<Row<Coverage>>): seq<Metric> {
    if rows == [] then [] else MetricsOf(d, rows[0].data) + Flatten(d, rows[1..])
  }

  function RowsFor(d: Db, q: Query): seq<Row<Coverage>> {
    Sorting.Sort(Filter(d.coverage.rows, Selects(d, q)), RowLe)
  }

  /** Every metric asked for. */
  function AllMetrics(d: Db, q: Query): seq<Metric> { Flatten(d, RowsFor(d, q)) }

  /** The limit cuts the reports first and then the metrics. */
  function Fetched(d: Db, q: Query, limit: nat): seq<Metric> { Take(Flatten(d, Take(RowsFor(d, q), limit)), limit) }

  lemma {:induction false} FlattenConcat(d: Db, a: seq<Row<Coverage>>, b: seq<Row<Coverage>>)
    ensures Flatten(d, a + b) == Flatten(d, a) + Flatten(d, b)
  {
    if a == [] {
      assert a + b == b;
    } else {
      assert (a + b)[1..] == a[1..] + b;
      FlattenConcat(d, a[1..], b);
    }
  }

  /** What is fetched is a front part of everything: all of it exactly when nothing lies past the limits. */
  lemma FetchedExact(d: Db, q: Query, limit: nat)
    ensures Fetched(d, q, limit) <= AllMetrics(d, q)
    ensures Fetched(d, q, limit) == AllMetrics(d, q)
      <==> |AllMetrics(d, q)| <= limit && Flatten(d, RowsFor(d, q)[|Take(RowsFor(d, q), limit)|..]) == []
  {
    hide RowsFor, MetricsOf;
    var rows := RowsFor(d, q);
    var front := Take(rows, limit);
    var rest := rows[|front|..];
    assert rows == front + rest;
    FlattenConcat(d, front, rest);
  }

  /** Reports of equal size. */
  lemma {:induction false} FlattenLength(d: Db, rows: seq<Row<Coverage>>, size: nat)
    requires forall r :: r in rows ==> |r.data.metrics| == size
    ensures |Flatten(d, rows)| == |rows| * size
  {
    if rows != [] {
      FlattenLength(d, rows[1..], size);
      assert rows[0] in rows && |rows| * size == size + (|rows| - 1) * size;
    }
  }

  lemma {:induction false} FlattenMembers(d: Db, rows: seq<Row<Coverage>>, m: Metric)
    requires m in Flatten(d, rows)
    ensures exists r, c :: r in rows && c in r.data.metrics && m.covered == c.covered && m.name == c.name
  {
    var first := MetricsOf(d, rows[0].data);
    if m in first {
      var i :| 0 <= i < |first| && first[i] == m;
      assert rows[0] in rows && rows[0].data.metrics[i] in rows[0].data.metrics;
    } else {
      FlattenMembers(d, rows[1..], m);
      var r, c :| r in rows[1..] && c in r.data.metrics && m.covered == c.covered && m.name == c.name;
      assert r in rows;
    }
  }

  predicate Wanted(wanted: Option<string>, given: string) {
    wanted == None || wanted.value == "" || given == wanted.value
  }

  /** The report is of the run, the suite and the kind asked for, as far as asked. */
  predicate Asked(d: Db, q: Query, report: Coverage) {
    && Wanted(q.runId, report.runId) && Wanted(q.kind, report.kind)
    && (q.suite == None || q.suite.value == ""
        || (report.runId in d.runs && d.runs[report.runId].suite == q.suite.value))
  }

  /** Metric `m` is metric `i` of the report. */
  predicate IsMetricOf(d: Db, report: Coverage, i: nat, m: Metric) {
    && i < |report.metrics|
    && m.name == report.metrics[i].name && m.scope == report.metrics[i].scope
    && m.covered == report.metrics[i].covered && m.binsMissed == report.metrics[i].binsMissed
    && m.kind == report.kind && m.runId == report.runId
    && m.suite == if report.runId in d.runs then d.runs[report.runId].suite else "unknown"
  }

  lemma {:induction false} FlattenMeaning(d: Db, rows: seq<Row<Coverage>>, m: Metric)
    ensures m in Flatten(d, rows) <==>
      exists k, i: nat :: 0 <= k < |rows| && IsMetricOf(d, rows[k].data, i, m)
  {
    if rows != [] {
      var first, rest := MetricsOf(d, rows[0].data), rows[1..];
      FlattenMeaning(d, rest, m);
      MetricsMeaning(d, rows[0].data, m);
      if k, i: nat :| 0 <= k < |rest| && IsMetricOf(d, rest[k].data, i, m) {
        assert IsMetricOf(d, rows[k + 1].data, i, m);
      }
      if k, i: nat :| 0 <= k < |rows| && IsMetricOf(d, rows[k].data, i, m) {
        if k > 0 { assert IsMetricOf(d, rest[k - 1].data, i, m); }
      }
    }
  }

  lemma MetricsMeaning(d: Db, c: Coverage, m: Metric)
    ensures m in MetricsOf(d, c) <==> exists i: nat :: IsMetricOf(d, c, i, m)
  {
    var r := MetricsOf(d, c);
    if m in r {
      var i :| 0 <= i < |r| && r[i] == m;
      assert IsMetricOf(d, c, i, m);
    }
    if i: nat :| IsMetricOf(d, c, i, m) { assert r[i] == m; }
  }

  /** What is asked for is every metric of every report asked for. */
  lemma AllMetricsMeaning(d: Db, q: Query, m: Metric)
    ensures m in AllMetrics(d, q) <==>
      exists r, i: nat :: r in d.coverage.rows && Asked(d, q, r.data) && IsMetricOf(d, r.data, i, m)
  {
    hide IsMetricOf, Asked;
    var rows := RowsFor(d, q);
    FlattenMeaning(d, rows, m);
    forall r ensures r in rows <==> r in d.coverage.rows && Asked(d, q, r.data) { RowAsked(d, q, r); }
    if k, i: nat :| 0 <= k < |rows| && IsMetricOf(d, rows[k].data, i, m) { assert rows[k] in rows; }
    if r, i: nat :| r in d.coverage.rows && Asked(d, q, r.data) && IsMetricOf(d, r.data, i, m) {
      assert r in rows;
      var k :| 0 <= k < |rows| && rows[k] == r;
    }
  }

  lemma RowAsked(d: Db, q: Query, r: Row<Coverage>)
    ensures r in RowsFor(d, q) <==> r in d.coverage.rows && Asked(d, q, r.data)
  {
    var kept := Filter(d.coverage.rows, Selects(d, q));
    Sorting.SortPermutes(kept, RowLe);
    assert r in kept <==> r in multiset(kept);
    assert r in RowsFor(d, q) <==> r in multiset(RowsFor(d, q));
    FilterMembers(d.coverage.rows, Selects(d, q));
  }

  lemma RowTransitive(a: Row<Coverage>, b: Row<Coverage>, c: Row<Coverage>)
    requires RowLe(a, b) && RowLe(b, c)
    ensures RowLe(a, c)
  {
    var x, y, z := a.data.runId, b.data.runId, c.data.runId;
    if x != y && y != z {
      TextOrder.LeTransitive(z, y, x);
      if x == z { TextOrder.LeAntisymmetric(x, y); }
    }
  }

  /** Reports come run by run from the greatest run id down, those of one run as they were stored. */
  lemma ReportsInOrder(d: Db, q: Query, i: nat, j: nat)
    requires i < j < |RowsFor(d, q)|
    ensures var a, b := RowsFor(d, q)[i], RowsFor(d, q)[j];
      TextOrder.Le(b.data.runId, a.data.runId) && (a.data.runId == b.data.runId ==> a.id <= b.id)
  {
    var kept := Filter(d.coverage.rows, Selects(d, q));
    forall a, b ensures RowLe(a, b) || RowLe(b, a) { TextOrder.LeTotal(a.data.runId, b.data.runId); }
    forall a, b, c | RowLe(a, b) && RowLe(b, c) ensures RowLe(a, c) { RowTransitive(a, b, c); }
    Sorting.SortSorted(kept, RowLe);
    var a, b := RowsFor(d, q)[i], RowsFor(d, q)[j];
    assert RowLe(a, b);
    TextOrder.LeTotal(a.data.runId, b.data.runId);
  }
}
