/** Deterministic identifiers: what goes into them, and how collisions of short forms are resolved. */
module Ids {
  import opened Common
  import opened PythonText
  import TextOrder
  import Sorting

  // ---- normalisation ----

  /** `s.replace("\r\n", "\n").replace("\r", "\n").replace("\\", "/")` in one sweep. */
  function Unify(s: string): string
    decreases |s|
  {
    if s == "" then ""
    else if |s| >= 2 && s[0] == '\r' && s[1] == '\n' then "\n" + Unify(s[2..])
    else if s[0] == '\r' then "\n" + Unify(s[1..])
    else if s[0] == '\\' then "/" + Unify(s[1..])
    else [s[0]] + Unify(s[1..])
  }

  function Normalize(s: string, caseSensitive: bool): string {
    var u := Unify(Strip(s));
    if caseSensitive then u else Lower(u)
  }

  // ---- the manifest behind a run id ----

  datatype FileEntry = FileEntry(path: string, hash: string)

  /** Tuple order: by path, then by hash. */
  predicate EntryLe(a: FileEntry, b: FileEntry) {
    if a.path == b.path then TextOrder.Le(a.hash, b.hash) else TextOrder.Le(a.path, b.path)
  }

  lemma EntryOrder()
    ensures Sorting.TotalPreorder(EntryLe)
    ensures forall a, b :: EntryLe(a, b) && EntryLe(b, a) ==> a == b
  {
    forall a, b ensures EntryLe(a, b) || EntryLe(b, a) {
      TextOrder.LeTotal(a.path, b.path);
      TextOrder.LeTotal(a.hash, b.hash);
    }
    forall a, b | EntryLe(a, b) && EntryLe(b, a) ensures a == b {
      if a.path == b.path { TextOrder.LeAntisymmetric(a.hash, b.hash); }
      else { TextOrder.LeAntisymmetric(a.path, b.path); }
    }
    forall a, b, c | EntryLe(a, b) && EntryLe(b, c) ensures EntryLe(a, c) {
      if a.path == b.path && b.path == c.path {
        TextOrder.LeTransitive(a.hash, b.hash, c.hash);
      } else if a.path != b.path && b.path != c.path {
        TextOrder.LtTransitive(a.path, b.path, c.path);
      }
    }
  }

  function EntryText(e: FileEntry): string { e.path + ":" + e.hash }

  function EntryTexts(es: seq<FileEntry>): (r: seq<string>)
    ensures |r| == |es| && forall i :: 0 <= i < |es| ==> r[i] == EntryText(es[i])
  {
    seq(|es|, i requires 0 <= i < |es| => EntryText(es[i]))
  }

  /** The text whose hash stands for a set of artifacts. */
  function ManifestText(manifest: seq<FileEntry>): string {
    Join(EntryTexts(Sorting.Sort(manifest, EntryLe)), '\n')
  }

  predicate Encodable(manifest: seq<FileEntry>) {
    forall e :: e in manifest ==> '\n' !in e.path && '\n' !in e.hash && ':' !in e.hash
  }

  lemma EntryTextInjective(a: FileEntry, b: FileEntry)
    requires ':' !in a.hash && ':' !in b.hash && EntryText(a) == EntryText(b)
    ensures a == b
  {
    var s := EntryText(a);
    var i, j := |a.path|, |b.path|;
    assert s[i] == ':' && s[j] == ':';
    assert forall k :: i < k < |s| ==> s[k] == a.hash[k - i - 1];
    assert forall k :: j < k < |s| ==> s[k] == b.hash[k - j - 1];
    assert i == j;
    assert a.path == s[..i] == b.path && a.hash == s[i + 1..] == b.hash;
  }

  lemma SortedEncodable(manifest: seq<FileEntry>)
    requires Encodable(manifest)
    ensures Encodable(Sorting.Sort(manifest, EntryLe))
    ensures |Sorting.Sort(manifest, EntryLe)| == |manifest|
  {
    Sorting.SortPermutes(manifest, EntryLe);
    forall e | e in Sorting.Sort(manifest, EntryLe) ensures e in manifest {
      assert e in multiset(Sorting.Sort(manifest, EntryLe));
    }
  }

  lemma {:induction false} TextsInjective(a: seq<FileEntry>, b: seq<FileEntry>)
    requires Encodable(a) && Encodable(b) && EntryTexts(a) == EntryTexts(b)
    ensures a == b
  {
    assert |a| == |EntryTexts(a)| == |EntryTexts(b)| == |b|;
    forall i | 0 <= i < |a| ensures a[i] == b[i] {
      assert EntryText(a[i]) == EntryTexts(a)[i] == EntryTexts(b)[i] == EntryText(b[i]);
      assert a[i] in a && b[i] in b;
      EntryTextInjective(a[i], b[i]);
    }
  }

  lemma ManifestLines(manifest: seq<FileEntry>)
    requires manifest != [] && Encodable(manifest)
    ensures Split(ManifestText(manifest), '\n') == EntryTexts(Sorting.Sort(manifest, EntryLe))
  {
    SortedEncodable(manifest);
    var sorted := Sorting.Sort(manifest, EntryLe);
    forall i | 0 <= i < |sorted| ensures '\n' !in EntryTexts(sorted)[i] {
      assert sorted[i] in sorted;
    }
    SplitJoin(EntryTexts(sorted), '\n');
  }

  /** The manifest text says exactly which (path, hash) pairs there are, and nothing about their order. */
  lemma ManifestIdentity(a: seq<FileEntry>, b: seq<FileEntry>)
    requires a != [] && b != [] && Encodable(a) && Encodable(b)
    ensures ManifestText(a) == ManifestText(b) <==> multiset(a) == multiset(b)
  {
    var sa, sb := Sorting.Sort(a, EntryLe), Sorting.Sort(b, EntryLe);
    Sorting.SortPermutes(a, EntryLe);
    Sorting.SortPermutes(b, EntryLe);
    if ManifestText(a) == ManifestText(b) {
      ManifestLines(a);
      ManifestLines(b);
      SortedEncodable(a);
      SortedEncodable(b);
      TextsInjective(sa, sb);
    }
    if multiset(a) == multiset(b) {
      EntryOrder();
      Sorting.SortSorted(a, EntryLe);
      Sorting.SortSorted(b, EntryLe);
      Sorting.SortedPermutationUnique(sa, sb, EntryLe);
    }
  }

  /** A manifest of one file is told apart by its hash having no colon; newlines do no harm there. */
  lemma SingletonIdentity(x: FileEntry, y: FileEntry)
    requires ':' !in x.hash && ':' !in y.hash
    ensures ManifestText([x]) == ManifestText([y]) <==> x == y
  {
    SingletonText(x);
    SingletonText(y);
    if ManifestText([x]) == ManifestText([y]) { EntryTextInjective(x, y); }
  }

  lemma SingletonText(x: FileEntry)
    ensures ManifestText([x]) == EntryText(x)
  {
    Sorting.SortFixed([x], EntryLe);
    assert EntryTexts([x]) == [EntryText(x)];
  }

  /** A colon in a hash always makes room for another file with the same text. */
  lemma ColonShares(path: string, before: string, after: string)
    ensures FileEntry(path, before + ":" + after) != FileEntry(path + ":" + before, after)
    ensures ManifestText([FileEntry(path, before + ":" + after)])
      == ManifestText([FileEntry(path + ":" + before, after)])
  {
    SingletonText(FileEntry(path, before + ":" + after));
    SingletonText(FileEntry(path + ":" + before, after));
    assert |path| != |path + ":" + before|;
    assert path + ":" + (before + ":" + after) == path + ":" + before + ":" + after;
  }

  lemma {:induction false} JoinFront(parts: seq<string>, last: string)
    requires parts != []
    ensures Join(parts + [last], '\n') == Join(parts, '\n') + "\n" + last
  {
    if |parts| > 1 {
      assert (parts + [last])[1..] == parts[1..] + [last];
      JoinFront(parts[1..], last);
    }
  }

  /** The one file a manifest of several can be mistaken for: everything but the last hash is its path. */
  function Mistaken(manifest: seq<FileEntry>): FileEntry
    requires manifest != []
  {
    var sorted := Sorting.Sort(manifest, EntryLe);
    Sorting.SortPermutes(manifest, EntryLe);
    var last := sorted[|sorted| - 1];
    FileEntry(Join(EntryTexts(sorted[..|sorted| - 1]), '\n') + "\n" + last.path, last.hash)
  }

  /**
   That newlines are kept out of paths is needed as soon as there are two files: every such
   manifest shares its text with a single file whose path has a newline.
   */
  lemma NewlineShares(manifest: seq<FileEntry>)
    requires |manifest| >= 2
    ensures '\n' in Mistaken(manifest).path
    ensures ManifestText([Mistaken(manifest)]) == ManifestText(manifest)
    ensures multiset([Mistaken(manifest)]) != multiset(manifest)
  {
    hide Join, Sorting.Sort, EntryLe;
    Sorting.SortPermutes(manifest, EntryLe);
    var sorted := Sorting.Sort(manifest, EntryLe);
    var n := |sorted| - 1;
    var front, last := EntryTexts(sorted[..n]), sorted[n];
    LastText(sorted);
    JoinFront(front, EntryText(last));
    SingletonText(Mistaken(manifest));
    MovedHash(Join(front, '\n'), last);
    assert |multiset([Mistaken(manifest)])| == 1 && |multiset(manifest)| == |manifest|;
  }

  lemma LastText(es: seq<FileEntry>)
    requires es != []
    ensures EntryTexts(es) == EntryTexts(es[..|es| - 1]) + [EntryText(es[|es| - 1])]
  {
  }

  /** Text in front of an entry can be counted to its path. */
  lemma MovedHash(before: string, e: FileEntry)
    ensures EntryText(FileEntry(before + "\n" + e.path, e.hash)) == before + "\n" + EntryText(e)
    ensures '\n' in before + "\n" + e.path
  {
    var a := before + "\n";
    assert a + (e.path + ":" + e.hash) == a + e.path + ":" + e.hash;
    assert (a + e.path)[|before|] == '\n';
  }

  /** Hexadecimal-looking hashes do not help: two files, and one file with a newline in its path. */
  lemma NewlineAmbiguity()
    ensures ManifestText([FileEntry("a", "1"), FileEntry("b", "2")]) == ManifestText([FileEntry("a:1\nb", "2")])
  {
    var two := [FileEntry("a", "1"), FileEntry("b", "2")];
    assert TextOrder.Le("a", "b");
    Sorting.SortFixed(two, EntryLe);
    assert EntryText(two[0]) == "a:1";
    assert two[..1] == [two[0]] && EntryTexts([two[0]]) == ["a:1"];
    NewlineShares(two);
    assert Mistaken(two) == FileEntry("a:1\nb", "2");
  }

  /** With a colon in a hash two files can share their text. */
  lemma ManifestAmbiguity()
    ensures ManifestText([FileEntry("a", "b:c")]) == ManifestText([FileEntry("a:b", "c")])
  {
    ColonShares("a", "b", "c");
  }

  /** Hashes have no colon, and unless there is one file on either side nothing has a newline. */
  predicate Comparable(a: seq<FileEntry>, b: seq<FileEntry>) {
    || (Encodable(a) && Encodable(b))
    || (|a| == |b| == 1 && ':' !in a[0].hash && ':' !in b[0].hash)
  }

  lemma ComparableIdentity(a: seq<FileEntry>, b: seq<FileEntry>)
    requires a != [] && b != [] && Comparable(a, b)
    ensures ManifestText(a) == ManifestText(b) <==> multiset(a) == multiset(b)
  {
    if Encodable(a) && Encodable(b) {
      ManifestIdentity(a, b);
    } else {
      assert a == [a[0]] && b == [b[0]];
      SingletonIdentity(a[0], b[0]);
      if multiset(a) == multiset(b) { assert a[0] in multiset(b); }
    }
  }

  /** What a run id is the digest of. */
  datatype RunInput =
    | FromCi(suite: string, ciSystem: string, ciBuildId: string, ciJobUrl: Option<string>)
    | FromManifest(suite: string, manifest: string)

  predicate Given(s: Option<string>) { s.Some? && s.value != "" }

  /** CI metadata is preferred; without it the manifest decides; with neither there is no id. */
  function RunInputOf(
    suite: string, ciSystem: Option<string>, ciBuildId: Option<string>, ciJobUrl: Option<string>,
    manifest: seq<FileEntry>, normalizeUrl: string -> string): Option<RunInput>
  {
    if Given(ciSystem) && Given(ciBuildId) then
      Some(FromCi(
        Normalize(suite, false),
        Normalize(ciSystem.value, false),
        Normalize(ciBuildId.value, true),
        if Given(ciJobUrl) then Some(normalizeUrl(ciJobUrl.value)) else None))
    else if manifest != [] then Some(FromManifest(Normalize(suite, false), ManifestText(manifest)))
    else None
  }

  /** Artifact-backed runs are told apart by their normalised suite and their files, and by nothing else. */
  lemma ArtifactRunIdentity(
    suiteA: string, suiteB: string, a: seq<FileEntry>, b: seq<FileEntry>, url: string -> string)
    requires a != [] && b != [] && Comparable(a, b)
    ensures RunInputOf(suiteA, None, None, None, a, url) == RunInputOf(suiteB, None, None, None, b, url)
      <==> Normalize(suiteA, false) == Normalize(suiteB, false) && multiset(a) == multiset(b)
  {
    ComparableIdentity(a, b);
  }

  /** Runs with complete CI metadata are told apart by suite, system, build and job address, and by nothing else. */
  lemma CiRunIdentity(
    suiteA: string, systemA: Option<string>, buildA: Option<string>, jobA: Option<string>, a: seq<FileEntry>,
    suiteB: string, systemB: Option<string>, buildB: Option<string>, jobB: Option<string>, b: seq<FileEntry>,
    url: string -> string)
    requires Given(systemA) && Given(buildA) && Given(systemB) && Given(buildB)
    ensures RunInputOf(suiteA, systemA, buildA, jobA, a, url) == RunInputOf(suiteB, systemB, buildB, jobB, b, url)
      <==>
        && Normalize(suiteA, false) == Normalize(suiteB, false)
        && Normalize(systemA.value, false) == Normalize(systemB.value, false)
        && Normalize(buildA.value, true) == Normalize(buildB.value, true)
        && (Given(jobA) <==> Given(jobB)) && (Given(jobA) ==> url(jobA.value) == url(jobB.value))
  {
    hide Normalize;
  }

  /** A run with complete CI metadata is none without it, and there is no id only when there is nothing to go by. */
  lemma CiRunsApart(
    suiteA: string, systemA: Option<string>, buildA: Option<string>, jobA: Option<string>, a: seq<FileEntry>,
    suiteB: string, systemB: Option<string>, buildB: Option<string>, jobB: Option<string>, b: seq<FileEntry>,
    url: string -> string)
    requires Given(systemA) && Given(buildA) && !(Given(systemB) && Given(buildB))
    ensures RunInputOf(suiteA, systemA, buildA, jobA, a, url) != RunInputOf(suiteB, systemB, buildB, jobB, b, url)
    ensures RunInputOf(suiteB, systemB, buildB, jobB, b, url).None? <==> b == []
  {
  }

  // ---- what normalising leaves ----

  /** `s.replace("\r\n", "\n")` */
  function OneBreak(s: string): string
    decreases |s|
  {
    if s == "" then ""
    else if |s| >= 2 && s[0] == '\r' && s[1] == '\n' then "\n" + OneBreak(s[2..])
    else [s[0]] + OneBreak(s[1..])
  }

  /** `s.replace(a, b)` for single characters. */
  function Replaced(s: string, from: char, into: char): (r: string)
    ensures |r| == |s| && forall i :: 0 <= i < |s| ==> r[i] == if s[i] == from then into else s[i]
  {
    seq(|s|, i requires 0 <= i < |s| => if s[i] == from then into else s[i])
  }

  lemma ReplacedCons(c: char, s: string, from: char, into: char)
    ensures Replaced([c] + s, from, into) == [if c == from then into else c] + Replaced(s, from, into)
  {
  }

  /** The one sweep does what the three replacements do one after another. */
  lemma {:induction false} UnifyIsThreeReplacements(s: string)
    ensures Unify(s) == Replaced(Replaced(OneBreak(s), '\r', '\n'), '\\', '/')
    decreases |s|
  {
    if s != "" {
      var both := |s| >= 2 && s[0] == '\r' && s[1] == '\n';
      var c, rest := if both then '\n' else s[0], if both then s[2..] else s[1..];
      assert OneBreak(s) == [c] + OneBreak(rest);
      UnifyIsThreeReplacements(rest);
      ReplacedCons(c, OneBreak(rest), '\r', '\n');
      ReplacedCons(if c == '\r' then '\n' else c, Replaced(OneBreak(rest), '\r', '\n'), '\\', '/');
    }
  }

  // ---- short forms ----

  const FULL_LENGTH := 64

  function ShortId(prefix: string, hash: string, length: nat): string {
    prefix + "_" + Take(hash, length)
  }

  /** The search of `extend_short_id` from the given length on. */
  function ExtendFrom(prefix: string, hash: string, existing: set<string>, length: nat): string
    decreases 65 - length
  {
    if length >= 65 then prefix + "_" + hash
    else if ShortId(prefix, hash, length) !in existing then ShortId(prefix, hash, length)
    else ExtendFrom(prefix, hash, existing, length + 4)
  }

  function ExtendShortId(prefix: string, hash: string, existing: set<string>): string {
    ExtendFrom(prefix, hash, existing, 12)
  }

  /** The candidate lengths are 12, 16, ..., 64. */
  lemma {:induction false} ExtendFound(prefix: string, hash: string, existing: set<string>, length: nat)
    requires 12 <= length <= 68 && length % 4 == 0
    ensures ExtendFrom(prefix, hash, existing, length) !in existing
      <==> (exists l: nat :: length <= l <= 64 && l % 4 == 0 && ShortId(prefix, hash, l) !in existing)
           || prefix + "_" + hash !in existing
    decreases 68 - length
  {
    if length < 65 {
      if ShortId(prefix, hash, length) !in existing {
        assert length % 4 == 0 && ShortId(prefix, hash, length) !in existing;
      } else {
        ExtendFound(prefix, hash, existing, length + 4);
      }
    }
  }

  /** For a full-length hash the answer is new unless all fourteen candidates are taken. */
  lemma ExtendFreshExact(prefix: string, hash: string, existing: set<string>)
    requires |hash| == FULL_LENGTH
    ensures ExtendShortId(prefix, hash, existing) in existing
      <==> forall l: nat :: 12 <= l <= 64 && l % 4 == 0 ==> ShortId(prefix, hash, l) in existing
  {
    ExtendFound(prefix, hash, existing, 12);
    assert ShortId(prefix, hash, 64) == prefix + "_" + hash;
  }

  lemma {:induction false} ExtendShape(prefix: string, hash: string, existing: set<string>, length: nat)
    requires |hash| == FULL_LENGTH && 12 <= length <= 68 && length % 4 == 0
    ensures exists l: nat :: 12 <= l <= 64 && ExtendFrom(prefix, hash, existing, length) == ShortId(prefix, hash, l)
    decreases 68 - length
  {
    if length >= 65 {
      assert ShortId(prefix, hash, 64) == prefix + "_" + hash;
    } else if ShortId(prefix, hash, length) in existing {
      ExtendShape(prefix, hash, existing, length + 4);
    }
  }

  /** Ids handed out one after another, each against all those before it. */
  function Allocate(prefix: string, hashes: seq<string>): (ids: seq<string>)
    ensures |ids| == |hashes|
  {
    if hashes == [] then []
    else
      var before := Allocate(prefix, hashes[..|hashes| - 1]);
      before + [ExtendShortId(prefix, hashes[|hashes| - 1], set x | x in before)]
  }

  predicate DistinctHashes(hashes: seq<string>) {
    && (forall i :: 0 <= i < |hashes| ==> |hashes[i]| == FULL_LENGTH)
    && forall i, j :: 0 <= i < j < |hashes| ==> hashes[i] != hashes[j]
  }

  /** Every issued id is a prefix of its own hash behind the common prefix. */
  lemma {:induction false} AllocatedShape(prefix: string, hashes: seq<string>, i: nat)
    requires DistinctHashes(hashes) && i < |hashes|
    ensures exists l: nat :: 12 <= l <= 64 && Allocate(prefix, hashes)[i] == ShortId(prefix, hashes[i], l)
  {
    hide ShortId, ExtendFrom;
    var n := |hashes| - 1;
    var before := Allocate(prefix, hashes[..n]);
    if i < n {
      assert hashes[..n][i] == hashes[i];
      AllocatedShape(prefix, hashes[..n], i);
    } else {
      ExtendShape(prefix, hashes[n], set x | x in before, 12);
    }
  }

  lemma FullFormDecides(prefix: string, a: string, l: nat, b: string)
    requires |a| == |b| == FULL_LENGTH && ShortId(prefix, a, l) == ShortId(prefix, b, 64)
    ensures a == b
  {
    var p := prefix + "_";
    assert Take(a, l) == (p + Take(a, l))[|p|..] == (p + b)[|p|..] == b;
  }

  /** The full-length form of a new hash is never among the ids issued before. */
  lemma FullFormIsFree(prefix: string, hashes: seq<string>, hash: string)
    requires DistinctHashes(hashes + [hash])
    ensures ShortId(prefix, hash, 64) !in Allocate(prefix, hashes)
  {
    var ids := Allocate(prefix, hashes);
    var all := hashes + [hash];
    assert |all[|hashes|]| == FULL_LENGTH;
    forall i | 0 <= i < |ids| ensures ids[i] != ShortId(prefix, hash, 64) {
      assert all[i] == hashes[i];
      assert DistinctHashes(hashes) by {
        assert forall k :: 0 <= k < |hashes| ==> all[k] == hashes[k];
      }
      AllocatedShape(prefix, hashes, i);
      var l: nat :| 12 <= l <= 64 && ids[i] == ShortId(prefix, hashes[i], l);
      if ids[i] == ShortId(prefix, hash, 64) {
        FullFormDecides(prefix, hashes[i], l, hash);
      }
    }
  }

  /** The next hash finds a free length, and its id is new. */
  lemma NextIsNew(prefix: string, hashes: seq<string>)
    requires hashes != [] && DistinctHashes(hashes)
    ensures var n := |hashes| - 1;
      var before := Allocate(prefix, hashes[..n]);
      && (exists l: nat :: 12 <= l <= 64 && l % 4 == 0 && ShortId(prefix, hashes[n], l) !in before)
      && ExtendShortId(prefix, hashes[n], set x | x in before) !in before
  {
    hide ShortId, ExtendShortId, Allocate;
    var n := |hashes| - 1;
    var before := Allocate(prefix, hashes[..n]);
    assert hashes[..n] + [hashes[n]] == hashes;
    FullFormIsFree(prefix, hashes[..n], hashes[n]);
    assert 64 % 4 == 0;
    ExtendFreshExact(prefix, hashes[n], set x | x in before);
  }

  /** All ids issued under one prefix stay distinct: the search always finds a free length. */
  lemma {:induction false} AllocationDistinct(prefix: string, hashes: seq<string>)
    requires DistinctHashes(hashes)
    ensures var ids := Allocate(prefix, hashes);
      forall i, j :: 0 <= i < j < |ids| ==> ids[i] != ids[j]
    ensures hashes != [] ==>
      var n := |hashes| - 1;
      exists l: nat :: 12 <= l <= 64 && l % 4 == 0 && ShortId(prefix, hashes[n], l) !in Allocate(prefix, hashes[..n])
  {
    hide ShortId, ExtendShortId;
    if hashes != [] {
      AllocationDistinct(prefix, hashes[..|hashes| - 1]);
      NextIsNew(prefix, hashes);
    }
  }
}
