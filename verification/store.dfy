/** The index store: an open database whose inserts change its tables in place. */
module Store {
  import opened Common
  import opened PythonText
  import opened Tables
  import opened StoreModel

  class IndexStore {
    var runs: map<string, Run>
    var tests: map<string, Test>
    var failures: map<string, Tables.Failure>
    var assertions: map<string, Assertion>
    var topologies: map<string, string>
    var waveforms: map<string, Waveform>
    var assertionFailures: Table<AssertionFailure>
    var coverage: Table<Coverage>
    var sva: Table<SvaStatus>
    var evidence: EvidenceTable

    ghost function View(): Db
      reads this
    {
      Db(runs, tests, failures, assertions, topologies, waveforms, assertionFailures, coverage, sva, evidence)
    }

    /** Connects to a database that may predate the sequences. */
    constructor (stored: StoredDb)
      ensures View() == OpenDb(stored)
    {
      runs, tests, failures, assertions := stored.runs, stored.tests, stored.failures, stored.assertions;
      topologies, waveforms := stored.topologies, stored.waveforms;
      assertionFailures, coverage := Open(stored.assertionFailures), Open(stored.coverage);
      sva, evidence := Open(stored.sva), Open(stored.evidence);
    }

    method InsertRun(id: string, row: Run)
      modifies this`runs
      ensures View() == PutRun(old(View()), id, row)
    {
      runs := runs[id := row];
    }

    method InsertTest(id: string, row: Test)
      modifies this`tests
      ensures View() == PutTest(old(View()), id, row)
    {
      tests := tests[id := row];
    }

    method InsertAssertion(id: string, row: Assertion)
      modifies this`assertions
      ensures View() == PutAssertion(old(View()), id, row)
    {
      assertions := assertions[id := row];
    }

    method InsertTopology(testId: string, topology: string)
      modifies this`topologies
      ensures View() == PutTopology(old(View()), testId, topology)
    {
      topologies := topologies[testId := topology];
    }

    method InsertWaveform(testId: string, row: Waveform)
      modifies this`waveforms
      ensures View() == PutWaveform(old(View()), testId, row)
    {
      waveforms := waveforms[testId := row];
    }

    method InsertEvidence(kind: string, id: string, ref: EvidenceRef)
      modifies this`evidence
      ensures evidence == Append(old(evidence), Evidence(kind, id, ref))
    {
      var next := evidence.next;
      evidence := Table(evidence.rows + [Row(next, Evidence(kind, id, ref))], next + 1);
    }

    /** Delete what the owner has, then insert the references one by one. */
    method ReplaceEvidenceOf(kind: string, id: string, refs: seq<EvidenceRef>)
      modifies this`evidence
      ensures evidence == ReplaceEvidence(old(evidence), kind, id, refs)
    {
      evidence := DeleteOwner(evidence, kind, id);
      var kept := evidence;
      for i := 0 to |refs|
        invariant evidence == AppendAll(kept, Owned(kind, id, refs)[..i])
      {
        var all := Owned(kind, id, refs);
        assert all[..i + 1][..i] == all[..i];
        InsertEvidence(kind, id, refs[i]);
      }
      assert Owned(kind, id, refs)[..|refs|] == Owned(kind, id, refs);
    }

    method InsertFailure(id: string, row: Tables.Failure, refs: seq<EvidenceRef>)
      modifies this`failures, this`evidence
      ensures View() == PutFailure(old(View()), id, row, refs)
      ensures GetEvidence(evidence, "failure", id) == refs
    {
      EvidenceReadsBack(evidence, "failure", id, refs, "failure", id);
      failures := failures[id := row];
      ReplaceEvidenceOf("failure", id, refs);
    }

    method InsertAssertionFailure(row: AssertionFailure, refs: seq<EvidenceRef>)
      modifies this`assertionFailures, this`evidence
      ensures View() == PutAssertionFailure(old(View()), row, refs)
    {
      var next := assertionFailures.next;
      assertionFailures := Table(assertionFailures.rows + [Row(next, row)], next + 1);
      ReplaceEvidenceOf("assertion_failure", Decimal(next), refs);
    }

    method InsertCoverage(row: Coverage, refs: seq<EvidenceRef>)
      modifies this`coverage, this`evidence
      ensures View() == PutCoverage(old(View()), row, refs)
    {
      var next := coverage.next;
      coverage := Table(coverage.rows + [Row(next, row)], next + 1);
      ReplaceEvidenceOf("coverage", Decimal(next), refs);
    }

    method InsertSva(row: SvaStatus)
      modifies this`sva
      ensures View() == PutSva(old(View()), row)
    {
      var next := sva.next;
      sva := Table(sva.rows + [Row(next, row)], next + 1);
    }

    /** The first matching row by rank, most recent creation time and test id. */
    method FindTestByName(wanted: string, framework: Option<string>) returns (r: Option<string>)
      ensures FindsTest(tests, wanted, framework, r)
    {
      r := None;
      var rest := tests.Keys;
      while rest != {}
        invariant rest <= tests.Keys
        invariant r.None? ==> forall k :: k in tests.Keys - rest ==> !IsCandidate(tests, k, wanted, framework)
        invariant r.Some? ==> r.value in tests.Keys - rest && IsCandidate(tests, r.value, wanted, framework)
        invariant r.Some? ==> forall k ::
          k in tests.Keys - rest && k != r.value && IsCandidate(tests, k, wanted, framework)
          ==> Precedes(tests, wanted, r.value, k)
        decreases rest
      {
        var id :| id in rest;
        BetterOfTwo(tests, wanted, framework, tests.Keys - rest, r, id);
        assert tests.Keys - (rest - {id}) == (tests.Keys - rest) + {id};
        if IsCandidate(tests, id, wanted, framework) && (r.None? || Precedes(tests, wanted, id, r.value)) {
          r := Some(id);
        }
        rest := rest - {id};
      }
    }
  }
}
