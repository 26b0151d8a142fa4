/** The rows of the index and the tables that number their own rows. */
module Tables {
  import opened Common
  import Sorting

  datatype Run = Run(
    suite: string, createdAt: string, createdAtMs: Option<int>, status: string,
    ciSystem: Option<string>, ciBuildId: Option<string>, ciJobUrl: Option<string>)

  datatype Test = Test(
    runId: string, framework: string, name: string, seed: Option<int>, status: string,
    durationMs: Option<int>, simVendor: Option<string>, dutTop: Option<string>,
    createdAt: string, createdAtMs: Option<int>)

  datatype Failure = Failure(
    testId: string, runId: string, severity: string, category: string, summary: string, message: string,
    timeNs: Option<int>, phase: Option<string>, component: Option<string>, tags: seq<string>,
    signatureId: Option<string>)

  datatype Assertion = Assertion(
    language: string, name: string, scope: string, file: string, line: int,
    signals: seq<string>, intentProtocol: Option<string>, intentRequirement: Option<string>, tags: seq<string>)

  datatype AssertionFailure = AssertionFailure(
    assertionId: string, testId: string, runId: string, timeNs: Option<int>, message: string)

  datatype CoverageMetric = CoverageMetric(name: string, scope: string, covered: real, binsMissed: seq<string>)

  datatype Coverage = Coverage(
    runId: string, testId: Option<string>, kind: string, metrics: seq<CoverageMetric>)

  datatype Waveform = Waveform(format: string, endTimeNs: Option<int>, sourcePath: string)

  datatype EvidenceRef = EvidenceRef(
    kind: string, path: string, startLine: Option<int>, endLine: Option<int>,
    startTimeNs: Option<int>, endTimeNs: Option<int>, extract: Option<string>)

  datatype Evidence = Evidence(ownerKind: string, ownerId: string, ref: EvidenceRef)

  datatype SvaStatus = SvaStatus(
    assertionId: string, testId: string, runId: string, status: string,
    passCount: int, failCount: int, vacuousCount: int)

  // ---- tables whose integer key comes from a sequence ----

  datatype Row<+T> = Row(id: int, data: T)

  /** A table of an open database: its rows and the next value of its sequence. */
  datatype Table<+T> = Table(rows: seq<Row<T>>, next: nat)

  /** A table on disk. Databases written before sequences existed have none. */
  datatype StoredTable<+T> = StoredTable(rows: seq<Row<T>>, sequence: Option<nat>)

  function MaxId<T>(rows: seq<Row<T>>): int {
    if rows == [] then 0
    else if |rows| == 1 then rows[0].id
    else Max(rows[0].id, MaxId(rows[1..]))
  }

  /** A missing sequence starts one above the largest id, and at one at least. */
  function Open<T>(t: StoredTable<T>): Table<T> {
    Table(t.rows, if t.sequence.Some? then t.sequence.value else Max(MaxId(t.rows) + 1, 1))
  }

  function Close<T>(t: Table<T>): StoredTable<T> { StoredTable(t.rows, Some(t.next)) }

  ghost predicate DistinctIds<T>(rows: seq<Row<T>>) {
    forall i, j :: 0 <= i < j < |rows| ==> rows[i].id != rows[j].id
  }

  ghost predicate StoredOk<T>(t: StoredTable<T>) {
    && DistinctIds(t.rows)
    && (t.sequence.Some? ==> forall i :: 0 <= i < |t.rows| ==> t.rows[i].id < t.sequence.value)
  }

  /** Every id in use is below the next one. */
  ghost predicate TableOk<T>(t: Table<T>) {
    && DistinctIds(t.rows)
    && forall i :: 0 <= i < |t.rows| ==> t.rows[i].id < t.next
  }

  lemma {:induction false} MaxIdBounds<T>(rows: seq<Row<T>>)
    ensures forall i :: 0 <= i < |rows| ==> rows[i].id <= MaxId(rows)
  {
    if |rows| > 1 {
      MaxIdBounds(rows[1..]);
      forall i | 0 <= i < |rows| ensures rows[i].id <= MaxId(rows) {
        if i > 0 { assert rows[i] == rows[1..][i - 1]; }
      }
    }
  }

  /** Opening any stored table, legacy ones included, gives a sequence above every row. */
  lemma OpenOk<T>(t: StoredTable<T>)
    requires StoredOk(t)
    ensures TableOk(Open(t)) && Open(t).rows == t.rows
  {
    MaxIdBounds(t.rows);
  }

  function Append<T>(t: Table<T>, x: T): Table<T> {
    Table(t.rows + [Row(t.next, x)], t.next + 1)
  }

  lemma AppendOk<T>(t: Table<T>, x: T)
    requires TableOk(t)
    ensures TableOk(Append(t, x))
    ensures forall i :: 0 <= i < |t.rows| ==> t.rows[i].id < t.next
  {
  }

  function AppendAll<T>(t: Table<T>, xs: seq<T>): Table<T> {
    if xs == [] then t else Append(AppendAll(t, xs[..|xs| - 1]), xs[|xs| - 1])
  }

  /** Rows with consecutive ids. */
  function Numbered<T>(from: nat, xs: seq<T>): (r: seq<Row<T>>)
    ensures |r| == |xs| && forall i :: 0 <= i < |xs| ==> r[i] == Row(from + i, xs[i])
  {
    seq(|xs|, i requires 0 <= i < |xs| => Row(from + i, xs[i]))
  }

  /** New rows get consecutive ids, in order, from the next one on. */
  lemma {:induction false} AppendAllRows<T>(t: Table<T>, xs: seq<T>)
    ensures AppendAll(t, xs) == Table(t.rows + Numbered(t.next, xs), t.next + |xs|)
  {
    if xs != [] {
      var n := |xs| - 1;
      AppendAllRows(t, xs[..n]);
      assert Numbered(t.next, xs) == Numbered(t.next, xs[..n]) + [Row(t.next + n, xs[n])];
    } else {
      assert t.rows + [] == t.rows;
    }
  }

  lemma {:induction false} AppendAllOk<T>(t: Table<T>, xs: seq<T>)
    requires TableOk(t)
    ensures TableOk(AppendAll(t, xs))
  {
    if xs != [] { AppendAllOk(t, xs[..|xs| - 1]); }
  }

  lemma {:induction false} FilterRowsOk<T>(rows: seq<Row<T>>, p: Row<T> -> bool)
    requires DistinctIds(rows)
    ensures DistinctIds(Filter(rows, p))
  {
    if rows != [] {
      FilterRowsOk(rows[1..], p);
      FilterMembers(rows[1..], p);
      var f := Filter(rows[1..], p);
      forall r | r in f ensures r.id != rows[0].id {
        assert r in rows[1..];
      }
    }
  }

  // ---- evidence ----

  type EvidenceTable = Table<Evidence>

  function OwnedBy(kind: string, id: string): Row<Evidence> -> bool {
    (r: Row<Evidence>) => r.data.ownerKind == kind && r.data.ownerId == id
  }

  function NotOwnedBy(kind: string, id: string): Row<Evidence> -> bool {
    (r: Row<Evidence>) => !(r.data.ownerKind == kind && r.data.ownerId == id)
  }

  /** `DELETE FROM evidence WHERE owner_kind = ? AND owner_id = ?` */
  function DeleteOwner(t: EvidenceTable, kind: string, id: string): EvidenceTable {
    t.(rows := Filter(t.rows, NotOwnedBy(kind, id)))
  }

  function Owned(kind: string, id: string, refs: seq<EvidenceRef>): (r: seq<Evidence>)
    ensures |r| == |refs| && forall i :: 0 <= i < |refs| ==> r[i] == Evidence(kind, id, refs[i])
  {
    seq(|refs|, i requires 0 <= i < |refs| => Evidence(kind, id, refs[i]))
  }

  /** Replacing an owner's evidence: delete what it has, then insert the new references. */
  function ReplaceEvidence(t: EvidenceTable, kind: string, id: string, refs: seq<EvidenceRef>): EvidenceTable {
    AppendAll(DeleteOwner(t, kind, id), Owned(kind, id, refs))
  }

  predicate IdLe(a: Row<Evidence>, b: Row<Evidence>) { a.id <= b.id }

  function RefsOf(rows: seq<Row<Evidence>>): (r: seq<EvidenceRef>)
    ensures |r| == |rows| && forall i :: 0 <= i < |rows| ==> r[i] == rows[i].data.ref
  {
    seq(|rows|, i requires 0 <= i < |rows| => rows[i].data.ref)
  }

  /** `SELECT ... WHERE owner ... ORDER BY id ASC` */
  function GetEvidence(t: EvidenceTable, kind: string, id: string): seq<EvidenceRef> {
    RefsOf(Sorting.Sort(Filter(t.rows, OwnedBy(kind, id)), IdLe))
  }

  lemma DeleteOwnerOk(t: EvidenceTable, kind: string, id: string)
    requires TableOk(t)
    ensures TableOk(DeleteOwner(t, kind, id))
  {
    FilterRowsOk(t.rows, NotOwnedBy(kind, id));
    FilterMembers(t.rows, NotOwnedBy(kind, id));
    var d := DeleteOwner(t, kind, id);
    forall i | 0 <= i < |d.rows| ensures d.rows[i].id < d.next {
      assert d.rows[i] in t.rows;
    }
  }

  lemma ReplaceOk(t: EvidenceTable, kind: string, id: string, refs: seq<EvidenceRef>)
    requires TableOk(t)
    ensures TableOk(ReplaceEvidence(t, kind, id, refs))
  {
    DeleteOwnerOk(t, kind, id);
    AppendAllOk(DeleteOwner(t, kind, id), Owned(kind, id, refs));
  }

  /** Deleting one owner's rows leaves every other owner's rows as they were. */
  lemma {:induction false} DeleteKeepsOthers(
    rows: seq<Row<Evidence>>, kind: string, id: string, kind2: string, id2: string)
    ensures Filter(Filter(rows, NotOwnedBy(kind, id)), OwnedBy(kind2, id2))
      == if kind == kind2 && id == id2 then [] else Filter(rows, OwnedBy(kind2, id2))
  {
    if rows != [] {
      DeleteKeepsOthers(rows[1..], kind, id, kind2, id2);
      FilterCons(rows[0], Filter(rows[1..], NotOwnedBy(kind, id)), OwnedBy(kind2, id2));
    }
  }

  lemma OwnedAfterReplace(
    t: EvidenceTable, kind: string, id: string, refs: seq<EvidenceRef>, kind2: string, id2: string)
    ensures Filter(ReplaceEvidence(t, kind, id, refs).rows, OwnedBy(kind2, id2)) ==
      if kind == kind2 && id == id2 then Numbered(t.next, Owned(kind, id, refs))
      else Filter(t.rows, OwnedBy(kind2, id2))
  {
    var d := DeleteOwner(t, kind, id);
    var added := Numbered(t.next, Owned(kind, id, refs));
    AppendAllRows(d, Owned(kind, id, refs));
    FilterConcat(d.rows, added, OwnedBy(kind2, id2));
    DeleteKeepsOthers(t.rows, kind, id, kind2, id2);
    if kind == kind2 && id == id2 {
      FilterAll(added, OwnedBy(kind2, id2));
    } else {
      FilterNone(added, OwnedBy(kind2, id2));
    }
  }

  /**
   After an owner's evidence is replaced, reading it back gives exactly the new references in their
   order, and reading any other owner's gives what it gave before.
   */
  lemma EvidenceReadsBack(
    t: EvidenceTable, kind: string, id: string, refs: seq<EvidenceRef>, kind2: string, id2: string)
    ensures GetEvidence(ReplaceEvidence(t, kind, id, refs), kind2, id2) ==
      if kind == kind2 && id == id2 then refs else GetEvidence(t, kind2, id2)
  {
    OwnedAfterReplace(t, kind, id, refs, kind2, id2);
    if kind == kind2 && id == id2 {
      var added := Numbered(t.next, Owned(kind, id, refs));
      Sorting.SortFixed(added, IdLe);
      assert RefsOf(added) == refs;
    }
  }
}
