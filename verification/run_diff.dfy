/** The difference between two indexed runs: test changes, failure signatures, coverage. */
module RunDiff {
  import opened Common
  import opened Tables
  import opened StoreModel
  import TextOrder
  import Sorting
  import Health
  import CoverageQuery

  // ---- test changes ----

  datatype Change =
    | StatusChange(name: string, base: string, compare: string)
    | Removed(name: string, base: string)
    | Added(name: string, compare: string)

  type Statuses = map<string, string>

  /** `{t["name"]: t for t in tests}`: a later row of the same name wins. */
  function ByName(rows: seq<Test>): Statuses {
    if rows == [] then map[]
    else ByName(rows[..|rows| - 1])[rows[|rows| - 1].name := rows[|rows| - 1].status]
  }

  /** A name's status is that of the last row with the name. */
  lemma {:induction false} ByNameMeaning(rows: seq<Test>, name: string)
    ensures name in ByName(rows) <==> exists i: nat :: LastNamed(rows, name, i)
    ensures forall i: nat :: LastNamed(rows, name, i) ==> Lookup(ByName(rows), name) == Some(rows[i].status)
  {
    if rows != [] {
      var n := |rows| - 1;
      ByNameMeaning(rows[..n], name);
      if rows[n].name == name { assert LastNamed(rows, name, n); }
      forall i: nat | i < n
        ensures rows[n].name != name ==> (LastNamed(rows, name, i) <==> LastNamed(rows[..n], name, i))
      {
        assert forall j :: 0 <= j < n ==> rows[..n][j] == rows[j];
      }
    }
  }

  ghost predicate LastNamed(rows: seq<Test>, name: string, i: nat) {
    i < |rows| && rows[i].name == name && forall j :: i < j < |rows| ==> rows[j].name != name
  }

  function ChangeFor(name: string, base: Statuses, compare: Statuses): seq<Change> {
    if name in base && name in compare && base[name] != compare[name]
    then [StatusChange(name, base[name], compare[name])]
    else if name in base && name !in compare then [Removed(name, base[name])]
    else if name in compare && name !in base then [Added(name, compare[name])]
    else []
  }

  function ChangesOver(names: seq<string>, base: Statuses, compare: Statuses): seq<Change> {
    if names == [] then []
    else ChangesOver(names[..|names| - 1], base, compare) + ChangeFor(names[|names| - 1], base, compare)
  }

  function Changes(base: Statuses, compare: Statuses): seq<Change> {
    ChangesOver(TextOrder.Sorted(base.Keys + compare.Keys), base, compare)
  }

  method DiffTests(base: Statuses, compare: Statuses) returns (changes: seq<Change>)
    ensures changes == Changes(base, compare)
  {
    hide TextOrder.Sorted;
    var names := TextOrder.Sorted(base.Keys + compare.Keys);
    changes := [];
    for i := 0 to |names|
      invariant changes == ChangesOver(names[..i], base, compare)
    {
      assert names[..i + 1][..i] == names[..i];
      var name := names[i];
      if name in base && name in compare && base[name] != compare[name] {
        changes := changes + [StatusChange(name, base[name], compare[name])];
      } else if name in base && name !in compare {
        changes := changes + [Removed(name, base[name])];
      } else if name in compare && name !in base {
        changes := changes + [Added(name, compare[name])];
      }
    }
    assert names[..|names|] == names;
  }

  /** Carrying out one change on a status table. */
  function Apply(m: Statuses, c: Change): Statuses {
    match c
    case StatusChange(name, _, compare) => m[name := compare]
    case Removed(name, _) => m - {name}
    case Added(name, compare) => m[name := compare]
  }

  function ApplyAll(m: Statuses, cs: seq<Change>): Statuses {
    if cs == [] then m else Apply(ApplyAll(m, cs[..|cs| - 1]), cs[|cs| - 1])
  }

  lemma ApplySnoc(m: Statuses, cs: seq<Change>, tail: seq<Change>)
    requires |tail| <= 1
    ensures ApplyAll(m, cs + tail) == if tail == [] then ApplyAll(m, cs) else Apply(ApplyAll(m, cs), tail[0])
  {
    if tail == [] { assert cs + tail == cs; } else { assert (cs + tail)[..|cs|] == cs; }
  }

  lemma ChangeIsShort(name: string, base: Statuses, compare: Statuses)
    ensures |ChangeFor(name, base, compare)| <= 1
  {
  }

  lemma ChangeApplies(m: Statuses, name: string, base: Statuses, compare: Statuses, n: string)
    requires Lookup(m, name) == Lookup(base, name)
    ensures var cs := ChangeFor(name, base, compare);
      Lookup(if cs == [] then m else Apply(m, cs[0]), n) == if n == name then Lookup(compare, name) else Lookup(m, n)
  {
  }

  /** After the changes of some names, those names are as in the compare run and all others as in the base run. */
  lemma {:induction false} PatchOver(names: seq<string>, base: Statuses, compare: Statuses, n: string)
    requires TextOrder.StrictlySorted(names)
    ensures Lookup(ApplyAll(base, ChangesOver(names, base, compare)), n) ==
      if n in names then Lookup(compare, n) else Lookup(base, n)
  {
    hide Apply, ChangeFor;
    if names != [] {
      var k := |names| - 1;
      var front := ChangesOver(names[..k], base, compare);
      ChangeIsShort(names[k], base, compare);
      PatchOver(names[..k], base, compare, n);
      PatchOver(names[..k], base, compare, names[k]);
      LastIsNew(names);
      ApplySnoc(base, front, ChangeFor(names[k], base, compare));
      ChangeApplies(ApplyAll(base, front), names[k], base, compare, n);
      assert names == names[..k] + [names[k]];
    }
  }

  lemma LastIsNew(names: seq<string>)
    requires names != [] && TextOrder.StrictlySorted(names)
    ensures names[|names| - 1] !in names[..|names| - 1]
  {
    var k := |names| - 1;
    forall i | 0 <= i < k ensures names[i] != names[k] {
      TextOrder.LtTotal(names[i], names[k]);
    }
  }

  /** The test changes are a patch: carried out on the base run they give the compare run. */
  lemma DiffIsPatch(base: Statuses, compare: Statuses)
    ensures ApplyAll(base, Changes(base, compare)) == compare
  {
    hide TextOrder.Sorted, ApplyAll, ChangesOver, TextOrder.Lt;
    var names := TextOrder.Sorted(base.Keys + compare.Keys);
    var m := ApplyAll(base, Changes(base, compare));
    forall n ensures Lookup(m, n) == Lookup(compare, n) {
      PatchOver(names, base, compare, n);
      assert n in names <==> n in base.Keys + compare.Keys;
    }
    assert forall n :: n in m <==> Lookup(m, n).Some?;
    assert forall n :: n in compare <==> Lookup(compare, n).Some?;
    assert m.Keys == compare.Keys;
    assert forall n :: n in m ==> m[n] == Lookup(m, n).value;
  }

  lemma {:induction false} ChangedNames(names: seq<string>, base: Statuses, compare: Statuses, name: string)
    ensures (exists c :: c in ChangesOver(names, base, compare) && c.name == name)
      <==> name in names && Lookup(base, name) != Lookup(compare, name)
  {
    if names != [] {
      var k := |names| - 1;
      var front, last := ChangesOver(names[..k], base, compare), ChangeFor(names[k], base, compare);
      ChangedNames(names[..k], base, compare, name);
      assert forall c :: c in front + last <==> c in front || c in last;
      assert names == names[..k] + [names[k]];
      if name == names[k] && Lookup(base, name) != Lookup(compare, name) { assert last[0] in last; }
    }
  }

  /** The patch names exactly the tests whose status differs, absence included. */
  lemma DiffIsMinimal(base: Statuses, compare: Statuses, name: string)
    ensures (exists c :: c in Changes(base, compare) && c.name == name) <==> Lookup(base, name) != Lookup(compare, name)
  {
    ChangedNames(TextOrder.Sorted(base.Keys + compare.Keys), base, compare, name);
  }

  /** The changes come in the order of the names, one for a name at most. */
  lemma {:induction false} ChangesInOrder(names: seq<string>, base: Statuses, compare: Statuses)
    requires TextOrder.StrictlySorted(names)
    ensures forall i, j :: 0 <= i < j < |ChangesOver(names, base, compare)| ==>
      TextOrder.Lt(ChangesOver(names, base, compare)[i].name, ChangesOver(names, base, compare)[j].name)
    ensures forall i :: 0 <= i < |ChangesOver(names, base, compare)| ==>
      ChangesOver(names, base, compare)[i].name in names
  {
    hide TextOrder.Lt;
    if names != [] {
      var k := |names| - 1;
      ChangesInOrder(names[..k], base, compare);
      assert names == names[..k] + [names[k]];
      forall i | 0 <= i < |ChangesOver(names[..k], base, compare)|
        ensures TextOrder.Lt(ChangesOver(names[..k], base, compare)[i].name, names[k])
      {
        var j :| 0 <= j < k && names[..k][j] == ChangesOver(names[..k], base, compare)[i].name;
        assert names[j] == names[..k][j];
      }
    }
  }

  lemma ChangesSorted(base: Statuses, compare: Statuses, i: nat, j: nat)
    requires i < j < |Changes(base, compare)|
    ensures TextOrder.Lt(Changes(base, compare)[i].name, Changes(base, compare)[j].name)
  {
    ChangesInOrder(TextOrder.Sorted(base.Keys + compare.Keys), base, compare);
  }

  function Inverse(c: Change): Change {
    match c
    case StatusChange(name, base, compare) => StatusChange(name, compare, base)
    case Removed(name, base) => Added(name, base)
    case Added(name, compare) => Removed(name, compare)
  }

  function Inverses(cs: seq<Change>): (r: seq<Change>)
    ensures |r| == |cs| && forall i :: 0 <= i < |cs| ==> r[i] == Inverse(cs[i])
  {
    seq(|cs|, i requires 0 <= i < |cs| => Inverse(cs[i]))
  }

  lemma {:induction false} SwapOver(names: seq<string>, base: Statuses, compare: Statuses)
    ensures ChangesOver(names, compare, base) == Inverses(ChangesOver(names, base, compare))
  {
    if names != [] { SwapOver(names[..|names| - 1], base, compare); }
  }

  /** Swapping the runs turns every change around and keeps their order. */
  lemma SwapInverts(base: Statuses, compare: Statuses)
    ensures Changes(compare, base) == Inverses(Changes(base, compare))
  {
    assert compare.Keys + base.Keys == base.Keys + compare.Keys;
    SwapOver(TextOrder.Sorted(base.Keys + compare.Keys), base, compare);
  }

  // ---- failure signatures ----

  type Counts = map<string, nat>

  datatype Counted = Counted(signature: string, count: int)

  datatype Persistent = Persistent(signature: string, baseCount: int, compareCount: int, delta: int)

  function CountIn(m: Counts): string -> int { (s: string) => if s in m then m[s] else 0 }

  function DeltaIn(base: Counts, compare: Counts): string -> int {
    (s: string) => CountIn(compare)(s) - CountIn(base)(s)
  }

  function CountedOver(names: seq<string>, m: Counts): seq<Counted> {
    if names == [] then [] else [Counted(names[0], CountIn(m)(names[0]))] + CountedOver(names[1..], m)
  }

  function PersistentOver(names: seq<string>, base: Counts, compare: Counts): seq<Persistent> {
    if names == [] then []
    else
      [Persistent(names[0], CountIn(base)(names[0]), CountIn(compare)(names[0]), DeltaIn(base, compare)(names[0]))]
      + PersistentOver(names[1..], base, compare)
  }

  /** Signatures of the compare run that the base run does not have. */
  function NewFailures(base: Counts, compare: Counts): seq<Counted> {
    CountedOver(TextOrder.Sorted(compare.Keys - base.Keys), compare)
  }

  function ResolvedFailures(base: Counts, compare: Counts): seq<Counted> {
    CountedOver(TextOrder.Sorted(base.Keys - compare.Keys), base)
  }

  function PersistentFailures(base: Counts, compare: Counts): seq<Persistent> {
    PersistentOver(TextOrder.Sorted(base.Keys * compare.Keys), base, compare)
  }

  function Swapped(p: Persistent): Persistent {
    Persistent(p.signature, p.compareCount, p.baseCount, -p.delta)
  }

  lemma {:induction false} SwapPersistent(names: seq<string>, base: Counts, compare: Counts)
    ensures var p, q := PersistentOver(names, base, compare), PersistentOver(names, compare, base);
      |p| == |q| && forall i :: 0 <= i < |p| ==> q[i] == Swapped(p[i])
  {
    if names != [] { SwapPersistent(names[1..], base, compare); }
  }

  /** Swapping the runs swaps new and resolved failures, and both counts and the sign of every delta. */
  lemma SwapSignatures(base: Counts, compare: Counts)
    ensures NewFailures(compare, base) == ResolvedFailures(base, compare)
    ensures var p, q := PersistentFailures(base, compare), PersistentFailures(compare, base);
      |p| == |q| && forall i :: 0 <= i < |p| ==> q[i] == Swapped(p[i])
  {
    assert base.Keys * compare.Keys == compare.Keys * base.Keys;
    SwapPersistent(TextOrder.Sorted(base.Keys * compare.Keys), base, compare);
  }

  function CountSum(cs: seq<Counted>): int { if cs == [] then 0 else cs[0].count + CountSum(cs[1..]) }

  function DeltaSum(ps: seq<Persistent>): int { if ps == [] then 0 else ps[0].delta + DeltaSum(ps[1..]) }

  function ListSum(names: seq<string>, f: string -> int): int {
    if names == [] then 0 else f(names[0]) + ListSum(names[1..], f)
  }

  /** Adding along the sorted list is adding over the set. */
  lemma {:induction false} SortedSum(s: set<string>, f: string -> int)
    ensures ListSum(TextOrder.Sorted(s), f) == SumOver(s, f)
    decreases s
  {
    if s != {} {
      var names := TextOrder.Sorted(s);
      assert names[0] in names;
      SortedTail(s);
      SortedSum(s - {names[0]}, f);
      SumOverRemove(s, names[0], f);
    }
  }

  lemma SortedTail(s: set<string>)
    requires s != {}
    ensures var names := TextOrder.Sorted(s);
      names != [] && names[1..] == TextOrder.Sorted(s - {names[0]})
  {
    var names := TextOrder.Sorted(s);
    var t := s - {names[0]};
    forall x ensures x in names[1..] <==> x in TextOrder.Sorted(t) {
      if x in names[1..] {
        var i :| 1 <= i < |names| && names[i] == x;
        TextOrder.LtTotal(names[0], names[i]);
        assert x in names;
      }
      if x in t { assert x in names && x != names[0]; }
    }
    TextOrder.SortedUnique(names[1..], TextOrder.Sorted(t));
  }

  lemma {:induction false} CountListSum(names: seq<string>, m: Counts)
    ensures CountSum(CountedOver(names, m)) == ListSum(names, CountIn(m))
  {
    if names != [] { CountListSum(names[1..], m); }
  }

  lemma {:induction false} DeltaListSum(names: seq<string>, base: Counts, compare: Counts)
    ensures DeltaSum(PersistentOver(names, base, compare)) == ListSum(names, DeltaIn(base, compare))
  {
    if names != [] { DeltaListSum(names[1..], base, compare); }
  }

  lemma {:induction false} SumOfDifferences(ks: set<string>, base: Counts, compare: Counts)
    ensures SumOver(ks, DeltaIn(base, compare)) == SumOver(ks, CountIn(compare)) - SumOver(ks, CountIn(base))
    decreases ks
  {
    if ks != {} {
      var k :| k in ks;
      SumOverRemove(ks, k, DeltaIn(base, compare));
      SumOverRemove(ks, k, CountIn(compare));
      SumOverRemove(ks, k, CountIn(base));
      SumOfDifferences(ks - {k}, base, compare);
    }
  }

  function TotalCount(m: Counts): int { ListSum(TextOrder.Sorted(m.Keys), CountIn(m)) }

  lemma ListsAsSums(base: Counts, compare: Counts)
    ensures TotalCount(base) == SumOver(base.Keys, CountIn(base))
    ensures CountSum(ResolvedFailures(base, compare)) == SumOver(base.Keys - compare.Keys, CountIn(base))
    ensures DeltaSum(PersistentFailures(base, compare)) == SumOver(base.Keys * compare.Keys, DeltaIn(base, compare))
  {
    SortedSum(base.Keys, CountIn(base));
    CountListSum(TextOrder.Sorted(base.Keys - compare.Keys), base);
    SortedSum(base.Keys - compare.Keys, CountIn(base));
    DeltaListSum(TextOrder.Sorted(base.Keys * compare.Keys), base, compare);
    SortedSum(base.Keys * compare.Keys, DeltaIn(base, compare));
  }

  lemma SplitKeys(base: Counts, compare: Counts)
    ensures SumOver(base.Keys, CountIn(base)) ==
      SumOver(base.Keys - compare.Keys, CountIn(base)) + SumOver(base.Keys * compare.Keys, CountIn(base))
  {
    SumOverDisjoint(base.Keys - compare.Keys, base.Keys * compare.Keys, CountIn(base));
    assert (base.Keys - compare.Keys) + (base.Keys * compare.Keys) == base.Keys;
  }

  /** No failure is lost between the lists: the totals differ by new minus resolved plus the deltas. */
  lemma SignatureBalance(base: Counts, compare: Counts)
    ensures TotalCount(compare) - TotalCount(base) ==
      CountSum(NewFailures(base, compare)) - CountSum(ResolvedFailures(base, compare))
      + DeltaSum(PersistentFailures(base, compare))
  {
    ListsAsSums(base, compare);
    ListsAsSums(compare, base);
    SwapSignatures(compare, base);
    SplitKeys(base, compare);
    SplitKeys(compare, base);
    SumOfDifferences(base.Keys * compare.Keys, base, compare);
    assert base.Keys * compare.Keys == compare.Keys * base.Keys;
  }

  /** `COALESCE(signature_id, failure_id)` */
  function SignatureOf(d: Db): string -> string {
    (f: string) => if f in d.failures then d.failures[f].signatureId.GetOr(f) else ""
  }

  function FailuresOf(d: Db, runId: string): set<string> {
    set f | f in d.failures && d.failures[f].runId == runId
  }

  function SignaturesOf(d: Db, runId: string): set<string> {
    set f | f in FailuresOf(d, runId) :: SignatureOf(d)(f)
  }

  /** `SELECT sig, COUNT(*) ... GROUP BY sig` */
  function SignatureCounts(d: Db, runId: string): Counts {
    map s | s in SignaturesOf(d, runId) :: |Class(FailuresOf(d, runId), SignatureOf(d), s)|
  }

  /** The counts of a run add up to its failures. */
  lemma SignaturesCountAll(d: Db, runId: string)
    ensures TotalCount(SignatureCounts(d, runId)) == |FailuresOf(d, runId)|
  {
    var m, fs := SignatureCounts(d, runId), FailuresOf(d, runId);
    SortedSum(m.Keys, CountIn(m));
    SumOverExt(m.Keys, CountIn(m), ClassSize(fs, SignatureOf(d)));
    ClassesAddUp(fs, SignatureOf(d), m.Keys);
    assert Classes(fs, SignatureOf(d), m.Keys) == fs;
  }

  /** In the index: the failures of two runs differ by the new ones, less the resolved ones, plus the deltas. */
  lemma FailuresBalance(d: Db, baseId: string, compareId: string)
    ensures var base, compare := SignatureCounts(d, baseId), SignatureCounts(d, compareId);
      |FailuresOf(d, compareId)| - |FailuresOf(d, baseId)| ==
        CountSum(NewFailures(base, compare)) - CountSum(ResolvedFailures(base, compare))
        + DeltaSum(PersistentFailures(base, compare))
  {
    SignaturesCountAll(d, baseId);
    SignaturesCountAll(d, compareId);
    SignatureBalance(SignatureCounts(d, baseId), SignatureCounts(d, compareId));
  }

  // ---- coverage ----

  datatype MetricKey = MetricKey(kind: string, name: string, scope: string)

  /** The order of the tuples: kind, then name, then scope. */
  predicate KeyLe(a: MetricKey, b: MetricKey) {
    if a.kind != b.kind then TextOrder.Le(a.kind, b.kind)
    else if a.name != b.name then TextOrder.Le(a.name, b.name)
    else TextOrder.Le(a.scope, b.scope)
  }

  lemma KeyLinear()
    ensures Sorting.LinearOrder(KeyLe)
  {
    forall a, b ensures KeyLe(a, b) || KeyLe(b, a) {
      TextOrder.LeTotal(a.kind, b.kind);
      TextOrder.LeTotal(a.name, b.name);
      TextOrder.LeTotal(a.scope, b.scope);
    }
    forall a, b | KeyLe(a, b) && KeyLe(b, a) ensures a == b {
      if a.kind != b.kind { TextOrder.LeAntisymmetric(a.kind, b.kind); }
      else if a.name != b.name { TextOrder.LeAntisymmetric(a.name, b.name); }
      else { TextOrder.LeAntisymmetric(a.scope, b.scope); }
    }
    forall a, b, c | KeyLe(a, b) && KeyLe(b, c) ensures KeyLe(a, c) { KeyTransitive(a, b, c); }
  }

  lemma KeyTransitive(a: MetricKey, b: MetricKey, c: MetricKey)
    requires KeyLe(a, b) && KeyLe(b, c)
    ensures KeyLe(a, c)
  {
    hide TextOrder.Le;
    if a.kind != b.kind && b.kind != c.kind {
      Through(a.kind, b.kind, c.kind);
    } else if a.kind == b.kind == c.kind {
      if a.name != b.name && b.name != c.name {
        Through(a.name, b.name, c.name);
      } else if a.name == b.name == c.name {
        TextOrder.LeTransitive(a.scope, b.scope, c.scope);
      }
    }
  }

  lemma Through(a: string, b: string, c: string)
    requires TextOrder.Le(a, b) && TextOrder.Le(b, c) && a != b
    ensures TextOrder.Le(a, c) && a != c
  {
    TextOrder.LeTransitive(a, b, c);
    if a == c { TextOrder.LeAntisymmetric(a, b); }
  }

  function Keys(ks: set<MetricKey>): (r: seq<MetricKey>)
    ensures forall k :: k in r <==> k in ks
    ensures |r| == |ks|
  {
    KeyLinear();
    Sorting.OrderedCard(ks, KeyLe);
    Sorting.Ordered(ks, KeyLe)
  }

  datatype CoverageDelta = CoverageDelta(key: MetricKey, base: Option<real>, compare: Option<real>, delta: Option<real>)

  function RoundOption(round: real -> real, x: Option<real>): Option<real> {
    if x.Some? then Some(round(x.value)) else None
  }

  function DeltaFor(base: Option<real>, compare: Option<real>, round: real -> real, key: MetricKey): CoverageDelta {
    CoverageDelta(key, RoundOption(round, base), RoundOption(round, compare),
      if base.Some? && compare.Some? then Some(round(compare.value - base.value)) else None)
  }

  function CoverageDeltas(base: map<MetricKey, real>, compare: map<MetricKey, real>, round: real -> real)
    : (r: seq<CoverageDelta>)
    ensures |r| == |Keys(base.Keys + compare.Keys)|
  {
    var keys := Keys(base.Keys + compare.Keys);
    seq(|keys|, i requires 0 <= i < |keys| => DeltaFor(Lookup(base, keys[i]), Lookup(compare, keys[i]), round, keys[i]))
  }

  /** The same metric with the runs swapped. */
  ghost predicate Mirrors(p: CoverageDelta, q: CoverageDelta) {
    && q.key == p.key && q.base == p.compare && q.compare == p.base
    && (q.delta.Some? <==> p.delta.Some?)
    && (p.delta.Some? ==> q.delta.value == -p.delta.value)
  }

  lemma DeltaMirrors(base: Option<real>, compare: Option<real>, round: real -> real, key: MetricKey)
    requires forall x :: round(-x) == -round(x)
    ensures Mirrors(DeltaFor(base, compare, round, key), DeltaFor(compare, base, round, key))
  {
    if base.Some? && compare.Some? {
      assert base.value - compare.value == -(compare.value - base.value);
    }
  }

  /** With a rounding that treats both signs alike, swapping the runs negates every coverage delta. */
  lemma SwapCoverage(base: map<MetricKey, real>, compare: map<MetricKey, real>, round: real -> real)
    requires forall x :: round(-x) == -round(x)
    ensures var p, q := CoverageDeltas(base, compare, round), CoverageDeltas(compare, base, round);
      |p| == |q| && forall i :: 0 <= i < |p| ==> Mirrors(p[i], q[i])
  {
    hide DeltaFor, Mirrors;
    assert base.Keys + compare.Keys == compare.Keys + base.Keys;
    var keys := Keys(base.Keys + compare.Keys);
    var p, q := CoverageDeltas(base, compare, round), CoverageDeltas(compare, base, round);
    forall i | 0 <= i < |keys| ensures Mirrors(p[i], q[i]) {
      DeltaMirrors(Lookup(base, keys[i]), Lookup(compare, keys[i]), round, keys[i]);
    }
  }

  // ---- what the queries return for one run ----

  /** `WHERE run_id = ?`; an empty id asks for everything. */
  predicate OfRun(runId: string, row: string) { runId != "" ==> row == runId }

  function TestsOf(d: Db, runId: string): set<string> {
    set t | t in d.tests && OfRun(runId, d.tests[t].runId)
  }

  /** `ORDER BY created_at DESC`; ties are left to the order of the ids. */
  function NewestFirst(d: Db): (string, string) -> bool {
    (a: string, b: string) => TextOrder.Le(CreatedAt(d, b), CreatedAt(d, a))
  }

  function CreatedAt(d: Db, t: string): string { if t in d.tests then d.tests[t].createdAt else "" }

  function TestIds(d: Db, runId: string): (r: seq<string>)
    ensures forall t :: t in r <==> t in TestsOf(d, runId)
    ensures |r| == |TestsOf(d, runId)|
  {
    var ids := TextOrder.Sorted(TestsOf(d, runId));
    TextOrder.SortedCard(TestsOf(d, runId));
    Sorting.SortPermutes(ids, NewestFirst(d));
    assert forall t :: t in ids <==> t in multiset(ids);
    assert forall t :: t in Sorting.Sort(ids, NewestFirst(d)) <==> t in multiset(Sorting.Sort(ids, NewestFirst(d)));
    Sorting.Sort(ids, NewestFirst(d))
  }

  /** No test comes before a newer one. */
  lemma NewestComeFirst(d: Db, runId: string, i: nat, j: nat)
    requires i < j < |TestIds(d, runId)|
    ensures var t, u := TestIds(d, runId)[i], TestIds(d, runId)[j];
      t in d.tests && u in d.tests && TextOrder.Le(d.tests[u].createdAt, d.tests[t].createdAt)
  {
    var le := NewestFirst(d);
    forall a, b ensures le(a, b) || le(b, a) { TextOrder.LeTotal(CreatedAt(d, a), CreatedAt(d, b)); }
    forall a, b, c | le(a, b) && le(b, c) ensures le(a, c) {
      TextOrder.LeTransitive(CreatedAt(d, c), CreatedAt(d, b), CreatedAt(d, a));
    }
    Sorting.SortSorted(TextOrder.Sorted(TestsOf(d, runId)), le);
    var t, u := TestIds(d, runId)[i], TestIds(d, runId)[j];
    assert t in TestIds(d, runId) && u in TestIds(d, runId) && le(t, u);
  }

  const TEST_LIMIT: nat := 10_000

  function RowsFor(d: Db, ids: seq<string>): (r: seq<Test>)
    requires forall t :: t in ids ==> t in d.tests
    ensures |r| == |ids| && forall i :: 0 <= i < |ids| ==> ids[i] in d.tests && r[i] == d.tests[ids[i]]
  {
    seq(|ids|, i requires 0 <= i < |ids| => assert ids[i] in ids; d.tests[ids[i]])
  }

  lemma TakeMembers(ids: seq<string>, n: nat)
    ensures forall t :: t in Take(ids, n) ==> t in ids
    ensures |ids| <= n ==> Take(ids, n) == ids
  {
    assert forall i :: 0 <= i < |Take(ids, n)| ==> Take(ids, n)[i] == ids[i];
  }

  /** One page of the tests of a run, with room for the limit. */
  function TestRows(d: Db, runId: string): seq<Test> {
    TakeMembers(TestIds(d, runId), TEST_LIMIT);
    RowsFor(d, Take(TestIds(d, runId), TEST_LIMIT))
  }

  lemma TestRowsMeaning(d: Db, runId: string)
    ensures forall t :: t in TestsOf(d, runId) <==> t in d.tests && (runId == "" || d.tests[t].runId == runId)
    ensures |TestRows(d, runId)| == Min(10_000, |TestsOf(d, runId)|)
    ensures forall i :: 0 <= i < |TestRows(d, runId)| ==>
      exists t :: t in TestsOf(d, runId) && d.tests[t] == TestRows(d, runId)[i]
    ensures |TestsOf(d, runId)| <= TEST_LIMIT ==>
      forall t :: t in TestsOf(d, runId) ==> d.tests[t] in TestRows(d, runId)
  {
    hide TestIds, Take;
    var all, ids := TestIds(d, runId), Take(TestIds(d, runId), TEST_LIMIT);
    TakeMembers(all, TEST_LIMIT);
    var r := TestRows(d, runId);
    forall i | 0 <= i < |r| ensures exists t :: t in TestsOf(d, runId) && d.tests[t] == r[i] {
      assert ids[i] in ids && ids[i] in TestsOf(d, runId);
    }
    if |TestsOf(d, runId)| <= TEST_LIMIT {
      forall t | t in TestsOf(d, runId) ensures d.tests[t] in r {
        assert t in ids;
        var i :| 0 <= i < |ids| && ids[i] == t;
        assert r[i] == d.tests[t];
      }
    }
  }

  const METRIC_LIMIT: nat := 100_000

  function KeyOf(m: CoverageQuery.Metric): MetricKey { MetricKey(m.kind, m.name, m.scope) }

  /** The metrics of a run, with the limit on reports and on metrics. */
  function MetricRows(d: Db, runId: string): seq<CoverageQuery.Metric> {
    CoverageQuery.Fetched(d, CoverageQuery.Query(Some(runId), None, None), METRIC_LIMIT)
  }

  /** The metrics fetched are those of the run's reports: no others, and all of them within the limit. */
  lemma MetricRowsMeaning(d: Db, runId: string, m: CoverageQuery.Metric)
    requires runId != ""
    ensures |MetricRows(d, runId)| <= 100_000
    ensures m in MetricRows(d, runId) ==>
      exists r, i: nat :: r in d.coverage.rows && r.data.runId == runId && CoverageQuery.IsMetricOf(d, r.data, i, m)
    ensures var q := CoverageQuery.Query(Some(runId), None, None);
      |CoverageQuery.RowsFor(d, q)| <= 100_000 && |CoverageQuery.AllMetrics(d, q)| <= 100_000 ==>
        forall r, i: nat ::
          r in d.coverage.rows && r.data.runId == runId && CoverageQuery.IsMetricOf(d, r.data, i, m) ==>
            m in MetricRows(d, runId)
  {
    hide CoverageQuery.RowsFor, CoverageQuery.Flatten, CoverageQuery.IsMetricOf;
    var q := CoverageQuery.Query(Some(runId), None, None);
    CoverageQuery.FetchedExact(d, q, METRIC_LIMIT);
    CoverageQuery.AllMetricsMeaning(d, q, m);
    var all := CoverageQuery.AllMetrics(d, q);
    if m in MetricRows(d, runId) {
      var i :| 0 <= i < |MetricRows(d, runId)| && MetricRows(d, runId)[i] == m;
      assert all[i] == m;
      var r, k: nat :| r in d.coverage.rows && CoverageQuery.Asked(d, q, r.data)
        && CoverageQuery.IsMetricOf(d, r.data, k, m);
      assert r.data.runId == runId;
    }
    forall r, i: nat | r in d.coverage.rows && r.data.runId == runId && CoverageQuery.IsMetricOf(d, r.data, i, m)
      ensures m in all
    {
      assert CoverageQuery.Asked(d, q, r.data);
    }
  }

  function CoveredAt(rows: seq<CoverageQuery.Metric>, key: MetricKey): seq<real> {
    if rows == [] then []
    else
      var front, r := CoveredAt(rows[..|rows| - 1], key), rows[|rows| - 1];
      if KeyOf(r) == key then front + [r.covered] else front
  }

  /** The mean of each metric's values. */
  ghost predicate MeansOf(means: map<MetricKey, real>, rows: seq<CoverageQuery.Metric>) {
    && (forall k :: k in means <==> CoveredAt(rows, k) != [])
    && forall k :: k in means && CoveredAt(rows, k) != [] ==> means[k] == Health.Mean(CoveredAt(rows, k))
  }

  lemma MeansUnique(a: map<MetricKey, real>, b: map<MetricKey, real>, rows: seq<CoverageQuery.Metric>)
    requires MeansOf(a, rows) && MeansOf(b, rows)
    ensures a == b
  {
    assert a.Keys == b.Keys;
  }

  /** `_coverage_by_key`: collect the values of each metric, then average. */
  method CoverageByKey(rows: seq<CoverageQuery.Metric>) returns (means: map<MetricKey, real>)
    ensures MeansOf(means, rows)
  {
    var buckets: map<MetricKey, seq<real>> := map[];
    for i := 0 to |rows|
      invariant forall k :: Lookup(buckets, k).GetOr([]) == CoveredAt(rows[..i], k)
      invariant forall k :: k in buckets ==> buckets[k] != []
    {
      assert rows[..i + 1][..i] == rows[..i];
      var r := rows[i];
      buckets := buckets[KeyOf(r) := Lookup(buckets, KeyOf(r)).GetOr([]) + [r.covered]];
    }
    assert rows[..|rows|] == rows;
    means := map k | k in buckets :: Health.Mean(buckets[k]);
    forall k ensures k in means <==> CoveredAt(rows, k) != [] {
      assert Lookup(buckets, k).GetOr([]) == CoveredAt(rows, k);
    }
    forall k | k in means ensures means[k] == Health.Mean(CoveredAt(rows, k)) {
      assert Lookup(buckets, k).GetOr([]) == CoveredAt(rows, k);
    }
  }

  // ---- what the lists of the answer say ----

  /** The failure counts under the signature: its own, or its id where it has none. */
  predicate Bears(d: Db, f: string, runId: string, signature: string) {
    && f in d.failures && d.failures[f].runId == runId
    && match d.failures[f].signatureId
       case Some(s) => s == signature
       case None => f == signature
  }

  function HowMany(d: Db, runId: string, signature: string): nat {
    var bearers := set f | f in d.failures && Bears(d, f, runId, signature);
    |bearers|
  }

  lemma CountsMeaning(d: Db, runId: string, signature: string)
    ensures signature in SignatureCounts(d, runId) <==> HowMany(d, runId, signature) > 0
    ensures CountIn(SignatureCounts(d, runId))(signature) == HowMany(d, runId, signature)
  {
    var bearers := set f | f in d.failures && Bears(d, f, runId, signature);
    assert Class(FailuresOf(d, runId), SignatureOf(d), signature) == bearers;
    if signature in SignaturesOf(d, runId) {
      var f :| f in FailuresOf(d, runId) && SignatureOf(d)(f) == signature;
      assert f in bearers;
    }
    if bearers != {} {
      var f :| f in bearers;
      assert f in FailuresOf(d, runId) && SignatureOf(d)(f) == signature;
    }
  }

  lemma {:induction false} CountedMeaning(names: seq<string>, m: Counts)
    ensures var r := CountedOver(names, m);
      |r| == |names| && forall i :: 0 <= i < |names| ==>
        r[i].signature == names[i] && r[i].count == CountIn(m)(names[i])
  {
    if names != [] { CountedMeaning(names[1..], m); }
  }

  lemma {:induction false} PersistentMeaning(names: seq<string>, base: Counts, compare: Counts)
    ensures var r := PersistentOver(names, base, compare);
      |r| == |names| && forall i :: 0 <= i < |names| ==>
        && r[i].signature == names[i]
        && r[i].baseCount == CountIn(base)(names[i]) && r[i].compareCount == CountIn(compare)(names[i])
        && r[i].delta == CountIn(compare)(names[i]) - CountIn(base)(names[i])
  {
    if names != [] { PersistentMeaning(names[1..], base, compare); }
  }

  /** Each signature that `there` has and `gone` has not, once and in order, with its number of failures. */
  ghost predicate OnlyIn(d: Db, there: string, gone: string, list: seq<Counted>) {
    && (forall i, j :: 0 <= i < j < |list| ==> TextOrder.Lt(list[i].signature, list[j].signature))
    && (forall i :: 0 <= i < |list| ==>
          && list[i].count == HowMany(d, there, list[i].signature) > 0
          && HowMany(d, gone, list[i].signature) == 0)
    && forall s :: HowMany(d, there, s) > 0 && HowMany(d, gone, s) == 0 ==>
         exists i :: 0 <= i < |list| && list[i].signature == s
  }

  ghost predicate InBoth(d: Db, baseId: string, compareId: string, list: seq<Persistent>) {
    && (forall i, j :: 0 <= i < j < |list| ==> TextOrder.Lt(list[i].signature, list[j].signature))
    && (forall i :: 0 <= i < |list| ==>
          && list[i].baseCount == HowMany(d, baseId, list[i].signature) > 0
          && list[i].compareCount == HowMany(d, compareId, list[i].signature) > 0
          && list[i].baseCount + list[i].delta == list[i].compareCount)
    && forall s :: HowMany(d, baseId, s) > 0 && HowMany(d, compareId, s) > 0 ==>
         exists i :: 0 <= i < |list| && list[i].signature == s
  }

  lemma NewMeaning(d: Db, baseId: string, compareId: string)
    ensures OnlyIn(d, compareId, baseId, NewFailures(SignatureCounts(d, baseId), SignatureCounts(d, compareId)))
  {
    hide HowMany, SignatureCounts, TextOrder.Le, CountedOver, CountIn;
    var base, compare := SignatureCounts(d, baseId), SignatureCounts(d, compareId);
    var names := TextOrder.Sorted(compare.Keys - base.Keys);
    CountedMeaning(names, compare);
    forall s ensures s in names <==> HowMany(d, compareId, s) > 0 && HowMany(d, baseId, s) == 0
      ensures CountIn(compare)(s) == HowMany(d, compareId, s)
    {
      CountsMeaning(d, baseId, s);
      CountsMeaning(d, compareId, s);
    }
  }

  lemma PersistentsMeaning(d: Db, baseId: string, compareId: string)
    ensures InBoth(d, baseId, compareId, PersistentFailures(SignatureCounts(d, baseId), SignatureCounts(d, compareId)))
  {
    hide HowMany, SignatureCounts, TextOrder.Le, PersistentOver, CountIn;
    var base, compare := SignatureCounts(d, baseId), SignatureCounts(d, compareId);
    var names := TextOrder.Sorted(base.Keys * compare.Keys);
    PersistentMeaning(names, base, compare);
    forall s ensures s in names <==> HowMany(d, compareId, s) > 0 && HowMany(d, baseId, s) > 0
      ensures CountIn(compare)(s) == HowMany(d, compareId, s) && CountIn(base)(s) == HowMany(d, baseId, s)
    {
      CountsMeaning(d, baseId, s);
      CountsMeaning(d, compareId, s);
    }
  }

  /** By kind, within a kind by name, and then by scope. */
  predicate InOrder(a: MetricKey, b: MetricKey) {
    if a.kind == b.kind && a.name == b.name then TextOrder.Lt(a.scope, b.scope)
    else if a.kind == b.kind then TextOrder.Lt(a.name, b.name)
    else TextOrder.Lt(a.kind, b.kind)
  }

  /** The metrics of either run, once and in order, with the rounded mean of each run that has it. */
  ghost predicate ListsMetrics(
    base: map<MetricKey, real>, compare: map<MetricKey, real>, round: real -> real, list: seq<CoverageDelta>)
  {
    && (forall i, j :: 0 <= i < j < |list| ==> InOrder(list[i].key, list[j].key))
    && (forall i :: 0 <= i < |list| ==>
          var e := list[i];
          && (e.base.Some? <==> e.key in base) && (e.key in base ==> e.base == Some(round(base[e.key])))
          && (e.compare.Some? <==> e.key in compare) && (e.key in compare ==> e.compare == Some(round(compare[e.key])))
          && (e.delta.Some? <==> e.base.Some? && e.compare.Some?))
    && forall k :: k in base || k in compare <==> exists i :: 0 <= i < |list| && list[i].key == k
  }

  /** In exact arithmetic the list leads from the base means to the compare means. */
  ghost predicate LeadsOver(list: seq<CoverageDelta>) {
    forall i :: 0 <= i < |list| && list[i].delta.Some? ==>
      && list[i].base.Some? && list[i].compare.Some?
      && list[i].base.value + list[i].delta.value == list[i].compare.value
  }

  /** However it is rounded, a metric that is no lower shows no loss, and one that is no higher shows no gain. */
  ghost predicate SignsAgree(base: map<MetricKey, real>, compare: map<MetricKey, real>, list: seq<CoverageDelta>) {
    forall i :: 0 <= i < |list| && list[i].delta.Some? ==>
      && list[i].key in base && list[i].key in compare
      && (base[list[i].key] <= compare[list[i].key] ==> list[i].delta.value >= 0.0)
      && (base[list[i].key] >= compare[list[i].key] ==> list[i].delta.value <= 0.0)
  }

  ghost predicate CoveragePatch(
    base: map<MetricKey, real>, compare: map<MetricKey, real>, round: real -> real, list: seq<CoverageDelta>)
  {
    && ListsMetrics(base, compare, round, list)
    && ((forall x :: round(x) == x) ==> LeadsOver(list))
    && ((forall x, y :: x <= y ==> round(x) <= round(y)) && round(0.0) == 0.0 ==> SignsAgree(base, compare, list))
  }

  /** The coverage list is a patch between the means of the two runs. */
  lemma CoverageIsPatch(base: map<MetricKey, real>, compare: map<MetricKey, real>, round: real -> real)
    ensures CoveragePatch(base, compare, round, CoverageDeltas(base, compare, round))
  {
    hide EntryIs, ListsMetrics, LeadsOver, SignsAgree, CoverageDeltas;
    EntriesList(base, compare, round);
    var list := CoverageDeltas(base, compare, round);
    if forall x :: round(x) == x { EntriesLead(base, compare, round, list); }
    if (forall x, y :: x <= y ==> round(x) <= round(y)) && round(0.0) == 0.0 {
      EntriesAgree(base, compare, round, list);
    }
  }

  lemma EntriesList(base: map<MetricKey, real>, compare: map<MetricKey, real>, round: real -> real)
    ensures var list := CoverageDeltas(base, compare, round);
      ListsMetrics(base, compare, round, list)
      && forall i :: 0 <= i < |list| ==> EntryIs(base, compare, round, list[i])
  {
    hide Keys, InOrder, EntryIs, ListsMetrics;
    var keys, list := Keys(base.Keys + compare.Keys), CoverageDeltas(base, compare, round);
    KeysInOrder(base.Keys + compare.Keys);
    forall i | 0 <= i < |list| ensures EntryIs(base, compare, round, list[i]) && list[i].key == keys[i] {
      DeltaIs(base, compare, round, keys[i]);
    }
    ListsFrom(base, compare, round, keys, list);
  }

  lemma ListsFrom(
    base: map<MetricKey, real>, compare: map<MetricKey, real>, round: real -> real,
    keys: seq<MetricKey>, list: seq<CoverageDelta>)
    requires |list| == |keys| && forall k :: k in keys <==> k in base.Keys + compare.Keys
    requires forall i, j :: 0 <= i < j < |keys| ==> InOrder(keys[i], keys[j])
    requires forall i :: 0 <= i < |list| ==> EntryIs(base, compare, round, list[i]) && list[i].key == keys[i]
    ensures ListsMetrics(base, compare, round, list)
  {
    hide InOrder;
    forall k ensures k in base || k in compare <==> exists i :: 0 <= i < |list| && list[i].key == k {
      assert k in base || k in compare <==> k in keys;
      if i :| 0 <= i < |list| && list[i].key == k { assert keys[i] in keys; }
      if k in keys {
        var i :| 0 <= i < |keys| && keys[i] == k;
        assert list[i].key == k;
      }
    }
  }

  ghost predicate EntryIs(
    base: map<MetricKey, real>, compare: map<MetricKey, real>, round: real -> real, e: CoverageDelta)
  {
    && (e.base.Some? <==> e.key in base) && (e.key in base ==> e.base == Some(round(base[e.key])))
    && (e.compare.Some? <==> e.key in compare) && (e.key in compare ==> e.compare == Some(round(compare[e.key])))
    && (e.delta.Some? <==> e.base.Some? && e.compare.Some?)
    && (e.delta.Some? ==> e.delta.value == round(compare[e.key] - base[e.key]))
  }

  lemma DeltaIs(base: map<MetricKey, real>, compare: map<MetricKey, real>, round: real -> real, key: MetricKey)
    ensures var e := DeltaFor(Lookup(base, key), Lookup(compare, key), round, key);
      EntryIs(base, compare, round, e) && e.key == key
  {
  }

  lemma KeysInOrder(ks: set<MetricKey>)
    ensures forall i, j :: 0 <= i < j < |Keys(ks)| ==> InOrder(Keys(ks)[i], Keys(ks)[j])
  {
    KeyLinear();
    var keys := Keys(ks);
    assert Sorting.StrictlyOrdered(keys, KeyLe);
    forall i, j | 0 <= i < j < |keys| ensures InOrder(keys[i], keys[j]) {
      assert keys[i] != keys[j] && KeyLe(keys[i], keys[j]);
    }
  }

  lemma EntriesLead(
    base: map<MetricKey, real>, compare: map<MetricKey, real>, round: real -> real, list: seq<CoverageDelta>)
    requires forall x :: round(x) == x
    requires forall i :: 0 <= i < |list| ==> EntryIs(base, compare, round, list[i])
    ensures LeadsOver(list)
  {
  }

  lemma EntriesAgree(
    base: map<MetricKey, real>, compare: map<MetricKey, real>, round: real -> real, list: seq<CoverageDelta>)
    requires (forall x, y :: x <= y ==> round(x) <= round(y)) && round(0.0) == 0.0
    requires forall i :: 0 <= i < |list| ==> EntryIs(base, compare, round, list[i])
    ensures SignsAgree(base, compare, list)
  {
    forall i | 0 <= i < |list| && list[i].delta.Some?
      ensures var k := list[i].key;
        && (base[k] <= compare[k] ==> list[i].delta.value >= 0.0)
        && (base[k] >= compare[k] ==> list[i].delta.value <= 0.0)
    {
      assert EntryIs(base, compare, round, list[i]);
      var gain := compare[list[i].key] - base[list[i].key];
      if gain >= 0.0 { assert round(0.0) <= round(gain); }
      if gain <= 0.0 { assert round(gain) <= round(0.0); }
    }
  }

  /** The values that the run's reports give for a metric. */
  function ValuesOf(rows: seq<CoverageQuery.Metric>, kind: string, name: string, scope: string): seq<real> {
    if rows == [] then []
    else if rows[0].kind == kind && rows[0].name == name && rows[0].scope == scope
    then [rows[0].covered] + ValuesOf(rows[1..], kind, name, scope)
    else ValuesOf(rows[1..], kind, name, scope)
  }

  lemma {:induction false} ValuesConcat(
    a: seq<CoverageQuery.Metric>, b: seq<CoverageQuery.Metric>, kind: string, name: string, scope: string)
    ensures ValuesOf(a + b, kind, name, scope) == ValuesOf(a, kind, name, scope) + ValuesOf(b, kind, name, scope)
  {
    if a == [] {
      assert a + b == b;
    } else {
      assert (a + b)[1..] == a[1..] + b;
      ValuesConcat(a[1..], b, kind, name, scope);
    }
  }

  lemma {:induction false} CoveredIsValues(rows: seq<CoverageQuery.Metric>, kind: string, name: string, scope: string)
    ensures CoveredAt(rows, MetricKey(kind, name, scope)) == ValuesOf(rows, kind, name, scope)
  {
    if rows != [] {
      var n := |rows| - 1;
      CoveredIsValues(rows[..n], kind, name, scope);
      ValuesConcat(rows[..n], [rows[n]], kind, name, scope);
      assert rows == rows[..n] + [rows[n]];
      assert ValuesOf([rows[n]][1..], kind, name, scope) == [];
    }
  }

  /** The mean of a metric times the number of its values is their total. */
  lemma MeanOfMetric(
    means: map<MetricKey, real>, rows: seq<CoverageQuery.Metric>, kind: string, name: string, scope: string)
    requires MeansOf(means, rows)
    ensures var k, values := MetricKey(kind, name, scope), ValuesOf(rows, kind, name, scope);
      && (k in means <==> values != [])
      && (k in means ==> means[k] * (|values| as real) == Health.Total(values))
  {
    hide Health.Mean, Health.Total, ValuesOf, CoveredAt;
    CoveredIsValues(rows, kind, name, scope);
    var values := ValuesOf(rows, kind, name, scope);
    if values != [] { MeanTimesCount(values); }
  }

  lemma MeanTimesCount(xs: seq<real>)
    requires xs != []
    ensures Health.Mean(xs) * (|xs| as real) == Health.Total(xs)
  {
  }

  // ---- the whole answer ----

  datatype Diff = Diff(
    changes: seq<Change>, added: seq<Counted>, resolved: seq<Counted>, persistent: seq<Persistent>,
    coverage: seq<CoverageDelta>)

  datatype DiffError = RunNotFound(runId: string)

  function StatusesOf(d: Db, runId: string): Statuses { ByName(TestRows(d, runId)) }

  method DiffRuns(d: Db, baseId: string, compareId: string, round: real -> real)
    returns (r: Result<Diff, DiffError>, ghost base: map<MetricKey, real>, ghost compare: map<MetricKey, real>)
    ensures baseId !in d.runs ==> r == Result.Failure(RunNotFound(baseId))
    ensures baseId in d.runs && compareId !in d.runs ==> r == Result.Failure(RunNotFound(compareId))
    ensures baseId in d.runs && compareId in d.runs ==>
      && r.Success?
      && r.value.changes == Changes(StatusesOf(d, baseId), StatusesOf(d, compareId))
      && r.value.added == NewFailures(SignatureCounts(d, baseId), SignatureCounts(d, compareId))
      && r.value.resolved == ResolvedFailures(SignatureCounts(d, baseId), SignatureCounts(d, compareId))
      && r.value.persistent == PersistentFailures(SignatureCounts(d, baseId), SignatureCounts(d, compareId))
      && MeansOf(base, MetricRows(d, baseId)) && MeansOf(compare, MetricRows(d, compareId))
      && r.value.coverage == CoverageDeltas(base, compare, round)
      && OnlyIn(d, compareId, baseId, r.value.added) && OnlyIn(d, baseId, compareId, r.value.resolved)
      && InBoth(d, baseId, compareId, r.value.persistent)
      && CoveragePatch(base, compare, round, r.value.coverage)
  {
    base, compare := map[], map[];
    if baseId !in d.runs {
      r := Result.Failure(RunNotFound(baseId));
      return;
    }
    if compareId !in d.runs {
      r := Result.Failure(RunNotFound(compareId));
      return;
    }
    var changes := DiffTests(StatusesOf(d, baseId), StatusesOf(d, compareId));
    var baseCounts, compareCounts := SignatureCounts(d, baseId), SignatureCounts(d, compareId);
    var baseCoverage := CoverageByKey(MetricRows(d, baseId));
    var compareCoverage := CoverageByKey(MetricRows(d, compareId));
    base, compare := baseCoverage, compareCoverage;
    r := Success(Diff(
      changes,
      NewFailures(baseCounts, compareCounts),
      ResolvedFailures(baseCounts, compareCounts),
      PersistentFailures(baseCounts, compareCounts),
      CoverageDeltas(baseCoverage, compareCoverage, round)));
    NewMeaning(d, baseId, compareId);
    NewMeaning(d, compareId, baseId);
    SwapSignatures(baseCounts, compareCounts);
    SwapSignatures(compareCounts, baseCounts);
    PersistentsMeaning(d, baseId, compareId);
    CoverageIsPatch(baseCoverage, compareCoverage, round);
  }
}
