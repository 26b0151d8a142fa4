/** The index as a value: its tables, the writes on them, and the search for a test by name. */
module StoreModel {
  import opened Common
  import opened PythonText
  import opened Tables
  import TextOrder

  datatype Db = Db(
    runs: map<string, Run>,
    tests: map<string, Test>,
    failures: map<string, Tables.Failure>,
    assertions: map<string, Assertion>,
    topologies: map<string, string>,
    waveforms: map<string, Waveform>,
    assertionFailures: Table<AssertionFailure>,
    coverage: Table<Coverage>,
    sva: Table<SvaStatus>,
    evidence: EvidenceTable)

  datatype StoredDb = StoredDb(
    runs: map<string, Run>,
    tests: map<string, Test>,
    failures: map<string, Tables.Failure>,
    assertions: map<string, Assertion>,
    topologies: map<string, string>,
    waveforms: map<string, Waveform>,
    assertionFailures: StoredTable<AssertionFailure>,
    coverage: StoredTable<Coverage>,
    sva: StoredTable<SvaStatus>,
    evidence: StoredTable<Evidence>)

  function OpenDb(d: StoredDb): Db {
    Db(d.runs, d.tests, d.failures, d.assertions, d.topologies, d.waveforms,
       Open(d.assertionFailures), Open(d.coverage), Open(d.sva), Open(d.evidence))
  }

  function CloseDb(d: Db): StoredDb {
    StoredDb(d.runs, d.tests, d.failures, d.assertions, d.topologies, d.waveforms,
             Close(d.assertionFailures), Close(d.coverage), Close(d.sva), Close(d.evidence))
  }

  /** A freshly created database. */
  const EMPTY := Db(map[], map[], map[], map[], map[], map[], Table([], 1), Table([], 1), Table([], 1), Table([], 1))

  ghost predicate StoredDbOk(d: StoredDb) {
    StoredOk(d.assertionFailures) && StoredOk(d.coverage) && StoredOk(d.sva) && StoredOk(d.evidence)
  }

  ghost predicate NumberingOk(d: Db) {
    TableOk(d.assertionFailures) && TableOk(d.coverage) && TableOk(d.sva) && TableOk(d.evidence)
  }

  // ---- writes ----

  function PutRun(d: Db, id: string, row: Run): Db { d.(runs := d.runs[id := row]) }

  function PutTest(d: Db, id: string, row: Test): Db { d.(tests := d.tests[id := row]) }

  function PutAssertion(d: Db, id: string, row: Assertion): Db { d.(assertions := d.assertions[id := row]) }

  function PutTopology(d: Db, testId: string, topology: string): Db {
    d.(topologies := d.topologies[testId := topology])
  }

  function PutWaveform(d: Db, testId: string, row: Waveform): Db {
    d.(waveforms := d.waveforms[testId := row])
  }

  function PutFailure(d: Db, id: string, row: Tables.Failure, refs: seq<EvidenceRef>): Db {
    d.(failures := d.failures[id := row], evidence := ReplaceEvidence(d.evidence, "failure", id, refs))
  }

  function PutAssertionFailure(d: Db, row: AssertionFailure, refs: seq<EvidenceRef>): Db {
    d.(assertionFailures := Append(d.assertionFailures, row),
       evidence := ReplaceEvidence(d.evidence, "assertion_failure", Decimal(d.assertionFailures.next), refs))
  }

  function PutCoverage(d: Db, row: Coverage, refs: seq<EvidenceRef>): Db {
    d.(coverage := Append(d.coverage, row),
       evidence := ReplaceEvidence(d.evidence, "coverage", Decimal(d.coverage.next), refs))
  }

  function PutSva(d: Db, row: SvaStatus): Db { d.(sva := Append(d.sva, row)) }

  // ---- any run of writes and reopenings ----

  datatype Write =
    | Reopen
    | WriteRun(id: string, run: Run)
    | WriteTest(id: string, test: Test)
    | WriteAssertion(id: string, assertion: Assertion)
    | WriteTopology(id: string, topology: string)
    | WriteWaveform(id: string, waveform: Waveform)
    | WriteFailure(id: string, failure: Tables.Failure, refs: seq<EvidenceRef>)
    | WriteAssertionFailure(assertionFailure: AssertionFailure, refs: seq<EvidenceRef>)
    | WriteCoverage(coverage: Coverage, refs: seq<EvidenceRef>)
    | WriteSva(sva: SvaStatus)

  function Perform(d: Db, w: Write): Db {
    match w
    case Reopen => OpenDb(CloseDb(d))
    case WriteRun(id, row) => PutRun(d, id, row)
    case WriteTest(id, row) => PutTest(d, id, row)
    case WriteAssertion(id, row) => PutAssertion(d, id, row)
    case WriteTopology(id, t) => PutTopology(d, id, t)
    case WriteWaveform(id, row) => PutWaveform(d, id, row)
    case WriteFailure(id, row, refs) => PutFailure(d, id, row, refs)
    case WriteAssertionFailure(row, refs) => PutAssertionFailure(d, row, refs)
    case WriteCoverage(row, refs) => PutCoverage(d, row, refs)
    case WriteSva(row) => PutSva(d, row)
  }

  function PerformAll(d: Db, ws: seq<Write>): Db {
    if ws == [] then d else Perform(PerformAll(d, ws[..|ws| - 1]), ws[|ws| - 1])
  }

  lemma PerformNumbering(d: Db, w: Write)
    requires NumberingOk(d)
    ensures NumberingOk(Perform(d, w))
  {
    match w {
      case Reopen =>
      case WriteFailure(id, _, refs) =>
        ReplaceOk(d.evidence, "failure", id, refs);
      case WriteAssertionFailure(row, refs) =>
        AppendOk(d.assertionFailures, row);
        ReplaceOk(d.evidence, "assertion_failure", Decimal(d.assertionFailures.next), refs);
      case WriteCoverage(row, refs) =>
        AppendOk(d.coverage, row);
        ReplaceOk(d.evidence, "coverage", Decimal(d.coverage.next), refs);
      case WriteSva(row) => AppendOk(d.sva, row);
      case _ =>
    }
  }

  /**
   From any stored database, legacy ones without sequences included, row ids stay unique through
   every run of writes and reopenings, and the next id is above every row.
   */
  lemma {:induction false} IdsStayUnique(stored: StoredDb, ws: seq<Write>)
    requires StoredDbOk(stored)
    ensures NumberingOk(PerformAll(OpenDb(stored), ws))
  {
    if ws == [] {
      OpenOk(stored.assertionFailures);
      OpenOk(stored.coverage);
      OpenOk(stored.sva);
      OpenOk(stored.evidence);
    } else {
      IdsStayUnique(stored, ws[..|ws| - 1]);
      PerformNumbering(PerformAll(OpenDb(stored), ws[..|ws| - 1]), ws[|ws| - 1]);
    }
  }

  /** `later` keeps the rows of `earlier` and adds rows numbered from its next id, one by one. */
  ghost predicate Grows<T>(earlier: Table<T>, later: Table<T>) {
    && earlier.rows <= later.rows
    && later.next == earlier.next + (|later.rows| - |earlier.rows|)
    && forall i :: |earlier.rows| <= i < |later.rows| ==> later.rows[i].id == earlier.next + (i - |earlier.rows|)
  }

  lemma GrowsAppend<T>(earlier: Table<T>, later: Table<T>, x: T)
    requires Grows(earlier, later)
    ensures Grows(earlier, Append(later, x))
  {
  }

  /** Rows that are only ever added are numbered consecutively, across reopenings too. */
  lemma {:induction false} AddedRowsIncrease(d: Db, ws: seq<Write>)
    ensures Grows(d.assertionFailures, PerformAll(d, ws).assertionFailures)
    ensures Grows(d.coverage, PerformAll(d, ws).coverage)
    ensures Grows(d.sva, PerformAll(d, ws).sva)
  {
    if ws != [] {
      var e, w := PerformAll(d, ws[..|ws| - 1]), ws[|ws| - 1];
      AddedRowsIncrease(d, ws[..|ws| - 1]);
      AppendsOnly(e, w);
      if w.WriteAssertionFailure? { GrowsAppend(d.assertionFailures, e.assertionFailures, w.assertionFailure); }
      if w.WriteCoverage? { GrowsAppend(d.coverage, e.coverage, w.coverage); }
      if w.WriteSva? { GrowsAppend(d.sva, e.sva, w.sva); }
    }
  }

  lemma AppendsOnly(d: Db, w: Write)
    ensures Perform(d, w).assertionFailures ==
      if w.WriteAssertionFailure? then Append(d.assertionFailures, w.assertionFailure) else d.assertionFailures
    ensures Perform(d, w).coverage == if w.WriteCoverage? then Append(d.coverage, w.coverage) else d.coverage
    ensures Perform(d, w).sva == if w.WriteSva? then Append(d.sva, w.sva) else d.sva
  {
  }

  /** The references of the last write of this failure, if there was one. */
  function LastRefs(ws: seq<Write>, id: string): Option<seq<EvidenceRef>> {
    if ws == [] then None
    else
      var w := ws[|ws| - 1];
      if w.WriteFailure? && w.id == id then Some(w.refs) else LastRefs(ws[..|ws| - 1], id)
  }

  lemma WriteKeepsOtherEvidence(d: Db, w: Write, id: string)
    ensures GetEvidence(Perform(d, w).evidence, "failure", id)
      == if w.WriteFailure? && w.id == id then w.refs else GetEvidence(d.evidence, "failure", id)
  {
    match w {
      case WriteFailure(id2, _, refs) => EvidenceReadsBack(d.evidence, "failure", id2, refs, "failure", id);
      case WriteAssertionFailure(_, refs) =>
        EvidenceReadsBack(d.evidence, "assertion_failure", Decimal(d.assertionFailures.next), refs, "failure", id);
      case WriteCoverage(_, refs) =>
        EvidenceReadsBack(d.evidence, "coverage", Decimal(d.coverage.next), refs, "failure", id);
      case _ =>
    }
  }

  /**
   Whatever else is written, and however often the database is reopened, a failure's evidence is
   that of its latest write, in order; a failure never written keeps what the database came with.
   */
  lemma {:induction false} FailureEvidenceIsLatest(d: Db, ws: seq<Write>, id: string)
    ensures GetEvidence(PerformAll(d, ws).evidence, "failure", id)
      == LastRefs(ws, id).GetOr(GetEvidence(d.evidence, "failure", id))
  {
    hide Perform;
    if ws != [] {
      FailureEvidenceIsLatest(d, ws[..|ws| - 1], id);
      WriteKeepsOtherEvidence(PerformAll(d, ws[..|ws| - 1]), ws[|ws| - 1], id);
    }
  }

  // ---- finding a test by name ----

  /** SQL `LIKE`: `%` stands for any text, `_` for any one character. */
  predicate Like(s: string, pattern: string)
    decreases |s| + |pattern|
  {
    if pattern == "" then s == ""
    else if pattern[0] == '%' then Like(s, pattern[1..]) || (s != "" && Like(s[1..], pattern))
    else s != "" && (pattern[0] == '_' || pattern[0] == s[0]) && Like(s[1..], pattern[1..])
  }

  /** 0 for the name itself, 1 for a dotted suffix, 2 for a part of the name, None for no match. */
  function MatchRank(wanted: string, name: string): Option<nat> {
    if name == wanted then Some(0)
    else if Like(name, "%." + wanted) then Some(1)
    else if Like(name, "%" + wanted + "%") then Some(2)
    else None
  }

  predicate IsCandidate(tests: map<string, Test>, id: string, wanted: string, framework: Option<string>) {
    && id in tests
    && MatchRank(wanted, tests[id].name).Some?
    && (framework.Some? && framework.value != "" ==> tests[id].framework == framework.value)
  }

  /** `ORDER BY rank, created_at DESC, test_id ASC` */
  predicate Precedes(tests: map<string, Test>, wanted: string, a: string, b: string)
    requires a in tests && b in tests
    requires MatchRank(wanted, tests[a].name).Some? && MatchRank(wanted, tests[b].name).Some?
  {
    var ra, rb := MatchRank(wanted, tests[a].name).value, MatchRank(wanted, tests[b].name).value;
    || ra < rb
    || (ra == rb && TextOrder.Lt(tests[b].createdAt, tests[a].createdAt))
    || (ra == rb && tests[a].createdAt == tests[b].createdAt && TextOrder.Lt(a, b))
  }

  ghost predicate IsBest(tests: map<string, Test>, id: string, wanted: string, framework: Option<string>) {
    && IsCandidate(tests, id, wanted, framework)
    && forall k :: IsCandidate(tests, k, wanted, framework) && k != id ==> Precedes(tests, wanted, id, k)
  }

  ghost predicate FindsTest(tests: map<string, Test>, wanted: string, framework: Option<string>, r: Option<string>) {
    match r
    case None => forall k :: !IsCandidate(tests, k, wanted, framework)
    case Some(id) => IsBest(tests, id, wanted, framework)
  }

  /** The search has one answer. */
  lemma FoundTestUnique(
    tests: map<string, Test>, wanted: string, framework: Option<string>, a: Option<string>, b: Option<string>)
    requires FindsTest(tests, wanted, framework, a) && FindsTest(tests, wanted, framework, b)
    ensures a == b
  {
    if a.Some? && b.Some? && a != b {
      var x, y := a.value, b.value;
      assert Precedes(tests, wanted, x, y) && Precedes(tests, wanted, y, x);
      TextOrder.LtTotal(x, y);
      TextOrder.LtTotal(tests[x].createdAt, tests[y].createdAt);
    }
  }

  lemma PrecedesOrder(
    tests: map<string, Test>, wanted: string, framework: Option<string>, a: string, b: string, c: string)
    requires IsCandidate(tests, a, wanted, framework) && IsCandidate(tests, b, wanted, framework)
    requires IsCandidate(tests, c, wanted, framework)
    ensures a == b || Precedes(tests, wanted, a, b) || Precedes(tests, wanted, b, a)
    ensures Precedes(tests, wanted, a, b) && Precedes(tests, wanted, b, c) ==> Precedes(tests, wanted, a, c)
  {
    TextOrder.LtTotal(a, b);
    TextOrder.LtTotal(tests[a].createdAt, tests[b].createdAt);
    if Precedes(tests, wanted, a, b) && Precedes(tests, wanted, b, c) {
      var x, y, z := tests[a].createdAt, tests[b].createdAt, tests[c].createdAt;
      if TextOrder.Lt(z, y) && TextOrder.Lt(y, x) { TextOrder.LtTransitive(z, y, x); }
      if TextOrder.Lt(a, b) && TextOrder.Lt(b, c) { TextOrder.LtTransitive(a, b, c); }
    }
  }

  /** Considering the rows one by one and keeping the better one finds the best. */
  lemma BetterOfTwo(
    tests: map<string, Test>, wanted: string, framework: Option<string>,
    seen: set<string>, best: Option<string>, id: string)
    requires id in tests && id !in seen
    requires best.None? ==> forall k :: k in seen ==> !IsCandidate(tests, k, wanted, framework)
    requires best.Some? ==> best.value in seen && IsCandidate(tests, best.value, wanted, framework)
    requires best.Some? ==> forall k ::
      k in seen && k != best.value && IsCandidate(tests, k, wanted, framework)
      ==> Precedes(tests, wanted, best.value, k)
    ensures var better :=
        IsCandidate(tests, id, wanted, framework) && (best.None? || Precedes(tests, wanted, id, best.value));
      var b := if better then Some(id) else best;
      b.Some? ==> forall k ::
        k in seen + {id} && k != b.value && IsCandidate(tests, k, wanted, framework)
        ==> Precedes(tests, wanted, b.value, k)
  {
    var better := IsCandidate(tests, id, wanted, framework) && (best.None? || Precedes(tests, wanted, id, best.value));
    var b := if better then Some(id) else best;
    if b.Some? {
      forall k | k in seen + {id} && k != b.value && IsCandidate(tests, k, wanted, framework)
        ensures Precedes(tests, wanted, b.value, k)
      {
        if best.Some? {
          if better && k != best.value {
            PrecedesOrder(tests, wanted, framework, id, best.value, k);
          } else if !better && k == id {
            PrecedesOrder(tests, wanted, framework, id, best.value, k);
          }
        }
      }
    }
  }
}
