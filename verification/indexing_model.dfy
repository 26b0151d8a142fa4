/**
 What indexing one artifact does to the index, as a function on its tables, and what any sequence
 of artifacts does.
 */
module IndexingModel {
  import opened Common
  import opened PythonText
  import opened Tables
  import opened StoreModel
  import opened Ids
  import BoundedText

  /** Everything an identifier is the digest of. */
  datatype IdInput =
    | RunId(run: RunInput)
    | TestId(runId: string, framework: string, name: string)
    | FailureId(testId: string, severity: string, category: string, summary: string)
    | SignatureId(category: string, summary: string, protocol: Option<string>)
    | DefinitionId(name: string, scope: string, file: string, line: int, language: string)
    | UnknownAssertionId(testId: string, message: string)

  /** What the indexer takes from outside the model: digests, regular expressions, clocks and limits. */
  datatype Library = Library(
    digest: IdInput -> string,
    stripVolatile: string -> string,
    summarySignature: string -> string,
    normalizeUrl: string -> string,
    normalizeRefs: seq<EvidenceRef> -> seq<EvidenceRef>,
    epochMs: string -> Option<int>,
    anyOf: set<string> -> string,
    maxMessageLength: int,
    maxTags: nat)

  /** Digests do not collide and are not empty, and `LIMIT 1` picks one of the rows. */
  ghost predicate LibraryOk(lib: Library) {
    && (forall a, b :: NoCollision(lib, a, b))
    && (forall a :: NotEmpty(lib, a))
    && forall s :: PicksOne(lib, s)
  }

  ghost predicate NoCollision(lib: Library, a: IdInput, b: IdInput) {
    lib.digest(a) == lib.digest(b) ==> a == b
  }

  ghost predicate NotEmpty(lib: Library, a: IdInput) { lib.digest(a) != "" }

  ghost predicate PicksOne(lib: Library, s: set<string>) { s != {} ==> lib.anyOf(s) in s }

  // ---- artifacts, as their parsers hand them over ----

  /** Where an artifact lies, what its bytes hash to, and what its path says about the CI job. */
  datatype Location = Location(
    path: string, hash: string, withinLimit: bool, suite: string,
    ciSystem: Option<string>, ciBuildId: Option<string>, ciJobUrl: Option<string>)

  datatype ParsedFailure = ParsedFailure(
    severity: Option<string>, category: Option<string>, summary: string, message: string, tags: seq<string>,
    timeNs: Option<int>, phase: Option<string>, component: Option<string>, evidence: seq<EvidenceRef>)

  datatype ParsedTest = ParsedTest(
    name: string, seed: Option<int>, durationMs: Option<int>, simulator: Option<string>)

  datatype BundleFailure = BundleFailure(name: string, message: string, timeNs: Option<int>)

  datatype UvmLog = UvmLog(
    location: Location, test: Option<ParsedTest>, topology: Option<string>, failures: seq<ParsedFailure>,
    assertionFailures: seq<BundleFailure>)

  datatype JunitCase = JunitCase(test: ParsedTest, failure: Option<ParsedFailure>)

  datatype JunitFile = JunitFile(location: Location, cases: seq<JunitCase>)

  datatype WaveFile = WaveFile(
    location: Location, readable: bool, testName: string, framework: Option<string>,
    format: string, endTimeNs: Option<int>)

  datatype Definition = Definition(
    name: string, scope: string, file: string, line: int, language: string,
    signals: seq<string>, intentProtocol: Option<string>, intentRequirement: Option<string>, tags: seq<string>)

  datatype Bundle = Bundle(
    location: Location, readable: bool, testName: Option<string>,
    definitions: seq<Definition>, failures: seq<BundleFailure>)

  datatype CoverageFile = CoverageFile(
    location: Location, readable: bool, testName: Option<string>, kind: string, metrics: seq<CoverageMetric>)

  datatype SvaEntry = SvaEntry(name: string, status: string, attempts: int, failures: int, vacuous: Option<bool>)

  datatype SvaFile = SvaFile(location: Location, readable: bool, testName: Option<string>, entries: seq<SvaEntry>)

  datatype Artifact =
    | UvmArtifact(log: UvmLog)
    | JunitArtifact(junit: JunitFile)
    | WaveArtifact(wave: WaveFile)
    | BundleArtifact(bundle: Bundle)
    | LogAssertionsArtifact(source: UvmLog)
    | CoverageArtifact(report: CoverageFile)
    | SvaArtifact(sva: SvaFile)

  datatype Step = Step(now: string, artifact: Artifact)

  // ---- runs ----

  /** CI metadata identifies the run when it is complete; otherwise the artifact itself does. */
  function RunIdOf(lib: Library, l: Location, useCi: bool): string {
    var complete := useCi && Given(l.ciSystem) && Given(l.ciBuildId);
    var input :=
      if useCi then
        RunInputOf(l.suite, l.ciSystem, l.ciBuildId, l.ciJobUrl,
                   if complete then [] else [FileEntry(l.path, l.hash)], lib.normalizeUrl)
      else RunInputOf(l.suite, None, None, None, [FileEntry(l.path, l.hash)], lib.normalizeUrl);
    assert input.Some?;
    lib.digest(RunId(input.value))
  }

  function NewRun(lib: Library, l: Location, now: string, status: string): Run {
    Run(l.suite, now, lib.epochMs(now), status, l.ciSystem, l.ciBuildId, l.ciJobUrl)
  }

  function OrKept(incoming: Option<string>, kept: Option<string>): Option<string> {
    if Given(incoming) then incoming else kept
  }

  /** A run already indexed keeps its creation time and a failing status. */
  function MergeRun(lib: Library, existing: Option<Run>, incoming: Run): Run {
    match existing
    case None => incoming
    case Some(e) =>
      var createdAt := if e.createdAt != "" then e.createdAt else incoming.createdAt;
      Run(incoming.suite, createdAt, lib.epochMs(createdAt),
          if incoming.status == "fail" || e.status == "fail" then "fail" else incoming.status,
          OrKept(incoming.ciSystem, e.ciSystem),
          OrKept(incoming.ciBuildId, e.ciBuildId),
          OrKept(incoming.ciJobUrl, e.ciJobUrl))
  }

  function UpsertRun(lib: Library, d: Db, id: string, incoming: Run): Db {
    PutRun(d, id, MergeRun(lib, Lookup(d.runs, id), incoming))
  }

  // ---- tests and failures ----

  function TestIdOf(lib: Library, runId: string, framework: string, name: string): string {
    lib.digest(TestId(runId, Normalize(framework, false), Normalize(name, true)))
  }

  function TestRow(lib: Library, now: string, runId: string, framework: string, t: ParsedTest, status: string): Test {
    Test(runId, framework, t.name, t.seed, status, t.durationMs, t.simulator, None, now, lib.epochMs(now))
  }

  const PROTOCOLS := {"axi4", "ahb", "apb", "pcie", "usb", "spi", "i2c"}

  function FirstProtocol(tags: seq<string>): Option<string> {
    if tags == [] then None
    else if tags[0] in PROTOCOLS then Some(tags[0])
    else FirstProtocol(tags[1..])
  }

  function Summarized(f: ParsedFailure): string { BoundedText.Truncated(f.summary, 500, "...", false) }

  function FailureIdOf(lib: Library, f: ParsedFailure, testId: string): string {
    lib.digest(FailureId(
      testId,
      Normalize(f.severity.GetOr("error"), false),
      Normalize(f.category.GetOr("unknown"), false),
      lib.stripVolatile(Normalize(Summarized(f), true))))
  }

  function FailureRow(lib: Library, f: ParsedFailure, testId: string, runId: string): Tables.Failure {
    var category := f.category.GetOr("unknown");
    var tags := Take(f.tags, lib.maxTags);
    Tables.Failure(
      testId, runId, f.severity.GetOr("error"), category, Summarized(f),
      BoundedText.Truncated(f.message, lib.maxMessageLength, "...", false),
      f.timeNs, f.phase, f.component, tags,
      Some(lib.digest(
        SignatureId(Normalize(category, false), lib.summarySignature(Summarized(f)), FirstProtocol(tags)))))
  }

  function IndexFailure(lib: Library, d: Db, f: ParsedFailure, testId: string, runId: string): Db {
    PutFailure(d, FailureIdOf(lib, f, testId), FailureRow(lib, f, testId, runId), lib.normalizeRefs(f.evidence))
  }

  function IndexFailures(lib: Library, d: Db, fs: seq<ParsedFailure>, testId: string, runId: string): Db {
    if fs == [] then d
    else IndexFailure(lib, IndexFailures(lib, d, fs[..|fs| - 1], testId, runId), fs[|fs| - 1], testId, runId)
  }

  // ---- UVM logs and JUnit files ----

  function UvmStatus(log: UvmLog): string { if log.failures != [] then "fail" else "pass" }

  /** The run, the test and its topology, before the failures. */
  function UvmBase(lib: Library, d: Db, now: string, log: UvmLog): Db
    requires log.test.Some?
  {
    var runId := RunIdOf(lib, log.location, false);
    var testId := TestIdOf(lib, runId, "uvm", log.test.value.name);
    var d1 := UpsertRun(lib, d, runId, NewRun(lib, log.location, now, UvmStatus(log)));
    var d2 := PutTest(d1, testId, TestRow(lib, now, runId, "uvm", log.test.value, UvmStatus(log)));
    if log.topology.Some? then PutTopology(d2, testId, log.topology.value) else d2
  }

  function IndexUvm(lib: Library, d: Db, now: string, log: UvmLog): Db {
    if !log.location.withinLimit || log.test.None? then d
    else
      var runId := RunIdOf(lib, log.location, false);
      var testId := TestIdOf(lib, runId, "uvm", log.test.value.name);
      IndexFailures(lib, UvmBase(lib, d, now, log), log.failures, testId, runId)
  }

  function CaseStatus(c: JunitCase): string { if c.failure.Some? then "fail" else "pass" }

  predicate AnyFails(cases: seq<JunitCase>) { exists c :: c in cases && c.failure.Some? }

  function JunitStatus(cases: seq<JunitCase>): string { if AnyFails(cases) then "fail" else "pass" }

  /** The failures reported under a test name, in file order. */
  function FailuresNamed(cases: seq<JunitCase>, name: string): seq<ParsedFailure> {
    if cases == [] then []
    else
      var front, c := FailuresNamed(cases[..|cases| - 1], name), cases[|cases| - 1];
      if c.test.name == name && c.failure.Some? then front + [c.failure.value] else front
  }

  function IndexCase(lib: Library, d: Db, now: string, runId: string, cases: seq<JunitCase>, c: JunitCase): Db {
    var testId := TestIdOf(lib, runId, "cocotb", c.test.name);
    var d1 := PutTest(d, testId, TestRow(lib, now, runId, "cocotb", c.test, CaseStatus(c)));
    IndexFailures(lib, d1, FailuresNamed(cases, c.test.name), testId, runId)
  }

  function IndexCases(lib: Library, d: Db, now: string, runId: string, cases: seq<JunitCase>, n: nat): Db
    requires n <= |cases|
  {
    if n == 0 then d
    else IndexCase(lib, IndexCases(lib, d, now, runId, cases, n - 1), now, runId, cases, cases[n - 1])
  }

  function IndexJunit(lib: Library, d: Db, now: string, file: JunitFile): Db {
    if !file.location.withinLimit || file.cases == [] then d
    else
      var runId := RunIdOf(lib, file.location, true);
      var d1 := UpsertRun(lib, d, runId, NewRun(lib, file.location, now, JunitStatus(file.cases)));
      IndexCases(lib, d1, now, runId, file.cases, |file.cases|)
  }

  // ---- artifacts that refer to a test by name ----

  ghost function FindTest(d: Db, wanted: string, framework: Option<string>): Option<string> {
    if exists id :: IsBest(d.tests, id, wanted, framework)
    then var id :| IsBest(d.tests, id, wanted, framework); Some(id)
    else None
  }

  /** First within the framework, then anywhere. */
  ghost function FindEither(d: Db, wanted: string, framework: Option<string>): Option<string> {
    if FindTest(d, wanted, framework).Some? then FindTest(d, wanted, framework) else FindTest(d, wanted, None)
  }

  ghost function ResolveTest(d: Db, wanted: string, framework: Option<string>): Option<string> {
    var t := FindEither(d, wanted, framework);
    if t.Some? && t.value in d.tests && d.tests[t.value].runId in d.runs then t else None
  }

  /** Bundles and coverage reports ask within cocotb first, and then once more without a framework. */
  ghost function ResolveTwice(d: Db, wanted: string): Option<string> {
    var t := ResolveTest(d, wanted, Some("cocotb"));
    if t.Some? then t else ResolveTest(d, wanted, None)
  }

  function LowerOption(s: Option<string>): Option<string> {
    if s.Some? then Some(Lower(s.value)) else None
  }

  ghost function IndexWave(lib: Library, d: Db, wave: WaveFile): Db {
    if !wave.location.withinLimit || !wave.readable then d
    else
      match FindEither(d, wave.testName, LowerOption(wave.framework))
      case None => d
      case Some(t) => PutWaveform(d, t, Waveform(wave.format, wave.endTimeNs, wave.location.path))
  }

  // ---- assertion bundles ----

  /** The index together with the names a bundle has introduced so far. */
  datatype Persisted = Persisted(db: Db, names: map<string, string>)

  function DefinitionIdOf(lib: Library, a: Definition): string {
    lib.digest(DefinitionId(
      Normalize(a.name, true), Normalize(a.scope, true), Normalize(a.file, true), a.line, Normalize(a.language, false)))
  }

  function DefinitionRow(a: Definition): Assertion {
    Assertion(a.language, a.name, a.scope, a.file, a.line, a.signals, a.intentProtocol, a.intentRequirement, a.tags)
  }

  function AddDefinition(lib: Library, p: Persisted, a: Definition): Persisted {
    var id := DefinitionIdOf(lib, a);
    Persisted(PutAssertion(p.db, id, DefinitionRow(a)), p.names[a.name := id])
  }

  function AddDefinitions(lib: Library, p: Persisted, defs: seq<Definition>): Persisted {
    if defs == [] then p
    else AddDefinition(lib, AddDefinitions(lib, p, defs[..|defs| - 1]), defs[|defs| - 1])
  }

  function BundleName(f: BundleFailure): string { if f.name != "" then f.name else "unknown" }

  function UnknownIdOf(lib: Library, testId: string, f: BundleFailure): string {
    lib.digest(UnknownAssertionId(testId, Take(lib.stripVolatile(Normalize(f.message, true)), 200)))
  }

  function UnknownRow(id: string): Assertion {
    Assertion("unknown", "unknown_assertion_" + Slice(id, 2, 10), "synthetic", "unknown.sv", 1,
              [], None, None, ["unknown"])
  }

  /** A failure of an unnamed assertion gets a synthetic definition first. */
  function EnsureDefined(lib: Library, p: Persisted, f: BundleFailure, testId: string): Persisted {
    if BundleName(f) in p.names then p
    else
      var id := UnknownIdOf(lib, testId, f);
      Persisted(PutAssertion(p.db, id, UnknownRow(id)), p.names[BundleName(f) := id])
  }

  function AddFailure(
    lib: Library, p: Persisted, f: BundleFailure, testId: string, runId: string, source: string): Persisted
  {
    var q := EnsureDefined(lib, p, f, testId);
    assert BundleName(f) in q.names;
    var refs := lib.normalizeRefs([EvidenceRef("log", source, None, None, None, None, Some(f.message))]);
    var row := AssertionFailure(q.names[BundleName(f)], testId, runId, f.timeNs, f.message);
    q.(db := PutAssertionFailure(q.db, row, refs))
  }

  function AddFailures(
    lib: Library, p: Persisted, fs: seq<BundleFailure>, testId: string, runId: string, source: string): Persisted
  {
    if fs == [] then p
    else
      AddFailure(lib, AddFailures(lib, p, fs[..|fs| - 1], testId, runId, source), fs[|fs| - 1], testId, runId, source)
  }

  function PersistBundle(
    lib: Library, d: Db, defs: seq<Definition>, fs: seq<BundleFailure>, testId: string, runId: string, source: string)
    : Db
  {
    AddFailures(lib, AddDefinitions(lib, Persisted(d, map[]), defs), fs, testId, runId, source).db
  }

  ghost function IndexBundle(lib: Library, d: Db, b: Bundle): Db {
    if !b.location.withinLimit || !b.readable || !Given(b.testName) then d
    else
      match ResolveTwice(d, b.testName.value)
      case None => d
      case Some(t) =>
        if t in d.tests then PersistBundle(lib, d, b.definitions, b.failures, t, d.tests[t].runId, b.location.path)
        else d
  }

  /** Assertion failures found in a UVM log, once all tests are indexed. */
  ghost function IndexLogAssertions(lib: Library, d: Db, log: UvmLog): Db {
    if !log.location.withinLimit || log.test.None? || log.test.value.name == "" || log.assertionFailures == [] then d
    else
      match ResolveTest(d, log.test.value.name, Some("uvm"))
      case None => d
      case Some(t) =>
        if t in d.tests then PersistBundle(lib, d, [], log.assertionFailures, t, d.tests[t].runId, log.location.path)
        else d
  }

  // ---- coverage and assertion status ----

  function CoverageRefs(l: Location): seq<EvidenceRef> {
    [EvidenceRef("coverage", l.path, None, None, None, None, None)]
  }

  ghost function CoverageTest(d: Db, c: CoverageFile): Option<string> {
    if Given(c.testName) then ResolveTwice(d, c.testName.value) else None
  }

  /** Coverage belongs to the test it names, or else to a run of its own that counts as passing. */
  ghost function IndexCoverage(lib: Library, d: Db, now: string, c: CoverageFile): Db {
    if !c.location.withinLimit || !c.readable then d
    else
      var t := CoverageTest(d, c);
      if t.Some? && t.value in d.tests then
        PutCoverage(d, Coverage(d.tests[t.value].runId, t, c.kind, c.metrics), CoverageRefs(c.location))
      else
        var runId := RunIdOf(lib, c.location, true);
        var d1 := UpsertRun(lib, d, runId, NewRun(lib, c.location, now, "pass"));
        PutCoverage(d1, Coverage(runId, None, c.kind, c.metrics), CoverageRefs(c.location))
  }

  ghost function NamedAssertions(d: Db, name: string): set<string> {
    set a | a in d.assertions && d.assertions[a].name == name
  }

  ghost function SvaRow(lib: Library, d: Db, e: SvaEntry, test: Option<string>): SvaStatus {
    var named := NamedAssertions(d, e.name);
    var vacuous := e.vacuous.GetOr(e.status == "vacuous");
    SvaStatus(
      if e.name != "" && test.Some? && named != {} then lib.anyOf(named) else "",
      test.GetOr(""),
      if test.Some? && test.value in d.tests then d.tests[test.value].runId else "",
      if vacuous then "vacuous" else e.status,
      e.attempts - e.failures, e.failures, if vacuous then 1 else 0)
  }

  ghost function AddSvaRows(lib: Library, d: Db, es: seq<SvaEntry>, test: Option<string>): Db {
    if es == [] then d
    else
      var front := AddSvaRows(lib, d, es[..|es| - 1], test);
      PutSva(front, SvaRow(lib, front, es[|es| - 1], test))
  }

  ghost function IndexSva(lib: Library, d: Db, s: SvaFile): Db {
    if !s.location.withinLimit || !s.readable || s.entries == [] then d
    else
      var test := if Given(s.testName) then ResolveTest(d, s.testName.value, None) else None;
      AddSvaRows(lib, d, s.entries, test)
  }

  // ---- sequences of artifacts ----

  ghost function IndexArtifact(lib: Library, d: Db, step: Step): Db {
    match step.artifact
    case UvmArtifact(log) => IndexUvm(lib, d, step.now, log)
    case JunitArtifact(file) => IndexJunit(lib, d, step.now, file)
    case WaveArtifact(wave) => IndexWave(lib, d, wave)
    case BundleArtifact(b) => IndexBundle(lib, d, b)
    case LogAssertionsArtifact(log) => IndexLogAssertions(lib, d, log)
    case CoverageArtifact(c) => IndexCoverage(lib, d, step.now, c)
    case SvaArtifact(s) => IndexSva(lib, d, s)
  }

  ghost function IndexSteps(lib: Library, d: Db, steps: seq<Step>): Db {
    if steps == [] then d
    else IndexArtifact(lib, IndexSteps(lib, d, steps[..|steps| - 1]), steps[|steps| - 1])
  }
}
