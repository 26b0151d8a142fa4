/** What a search for a test by name finds, said without patterns, for names that hold no wildcard. */
module TestSearch {
  import opened Common
  import opened Tables
  import opened StoreModel
  import opened CrossSim
  import opened IndexingModel
  import IndexInvariants
  import PythonText
  import TextOrder

  predicate EndsIn(s: string, tail: string) { |tail| <= |s| && s[|s| - |tail|..] == tail }

  predicate Holds(s: string, part: string) { exists i :: 0 <= i <= |s| && part <= s[i..] }

  /** `%` in front of a pattern lets it match any tail. */
  lemma {:induction false} LikeAnywhere(s: string, pattern: string)
    ensures Like(s, "%" + pattern) <==> exists i :: 0 <= i <= |s| && Like(s[i..], pattern)
  {
    assert ("%" + pattern)[1..] == pattern && s[0..] == s;
    if s != "" {
      LikeAnywhere(s[1..], pattern);
      assert forall i :: 0 <= i <= |s[1..]| ==> s[1..][i..] == s[i + 1..];
      if i :| 0 <= i <= |s| && Like(s[i..], pattern) {
        if i > 0 { assert s[1..][i - 1..] == s[i..]; }
      }
    }
  }

  /** A pattern without wildcards matches itself. */
  lemma {:induction false} LikePlain(s: string, pattern: string)
    requires NoWildcards(pattern)
    ensures Like(s, pattern) <==> s == pattern
  {
    if pattern != "" && s != "" {
      LikePlain(s[1..], pattern[1..]);
      assert s == [s[0]] + s[1..] && pattern == [pattern[0]] + pattern[1..];
    }
  }

  lemma LikeDotted(name: string, wanted: string)
    requires NoWildcards(wanted)
    ensures Like(name, "%." + wanted) <==> EndsIn(name, "." + wanted)
  {
    var tail := "." + wanted;
    assert "%" + tail == "%." + wanted;
    LikeAnywhere(name, tail);
    forall i | 0 <= i <= |name| ensures Like(name[i..], tail) <==> name[i..] == tail { LikePlain(name[i..], tail); }
    if EndsIn(name, tail) { assert Like(name[|name| - |tail|..], tail); }
  }

  lemma LikePart(name: string, wanted: string)
    requires NoWildcards(wanted)
    ensures Like(name, "%" + wanted + "%") <==> Holds(name, wanted)
  {
    assert "%" + (wanted + "%") == "%" + wanted + "%";
    LikeAnywhere(name, wanted + "%");
    forall i | 0 <= i <= |name| ensures Like(name[i..], wanted + "%") <==> wanted <= name[i..] {
      LikeIsPrefix(name[i..], wanted);
    }
  }

  /** A test that the search may return: the framework fits and the name holds the text. */
  predicate Fits(tests: map<string, Test>, id: string, wanted: string, framework: Option<string>) {
    && id in tests && Holds(tests[id].name, wanted)
    && (framework == None || framework.value == "" || tests[id].framework == framework.value)
  }

  predicate Dotted(tests: map<string, Test>, id: string, wanted: string) {
    id in tests && EndsIn(tests[id].name, "." + wanted)
  }

  predicate Named(tests: map<string, Test>, id: string, wanted: string) { id in tests && tests[id].name == wanted }

  lemma FitsIsCandidate(tests: map<string, Test>, id: string, wanted: string, framework: Option<string>)
    requires NoWildcards(wanted)
    ensures Fits(tests, id, wanted, framework) <==> IsCandidate(tests, id, wanted, framework)
  {
    if id in tests {
      var name := tests[id].name;
      LikeDotted(name, wanted);
      LikePart(name, wanted);
      if name == wanted { assert wanted <= name[0..]; }
      if EndsIn(name, "." + wanted) {
        var i := |name| - |wanted|;
        assert name[i..] == name[i - 1..][1..] && ("." + wanted)[1..] == wanted;
        assert wanted <= name[i..];
      }
    }
  }

  lemma RankMeaning(tests: map<string, Test>, id: string, wanted: string)
    requires NoWildcards(wanted) && id in tests && MatchRank(wanted, tests[id].name).Some?
    ensures var r := MatchRank(wanted, tests[id].name).value;
      && r <= 2 && (r == 0 <==> Named(tests, id, wanted))
      && (r <= 1 <==> Named(tests, id, wanted) || Dotted(tests, id, wanted))
  {
    LikeDotted(tests[id].name, wanted);
  }

  /** `a` is at least as good a match as `b`: the name itself, then a dotted tail, then any part of the name. */
  predicate NoWorse(tests: map<string, Test>, a: string, b: string, wanted: string) {
    && (Named(tests, b, wanted) ==> Named(tests, a, wanted))
    && (Dotted(tests, b, wanted) ==> Named(tests, a, wanted) || Dotted(tests, a, wanted))
  }

  /** `a` was created later than `b`, or at the same time under a smaller id. */
  predicate NewerOrFirst(tests: map<string, Test>, a: string, b: string) {
    && a in tests && b in tests
    && (TextOrder.Lt(tests[b].createdAt, tests[a].createdAt)
        || (tests[a].createdAt == tests[b].createdAt && TextOrder.Lt(a, b)))
  }

  /**
   The search finds nothing exactly when no name holds the text; otherwise what it finds is a match
   as good as any, and among equally good ones the newest, then the one with the smallest id.
   */
  lemma FoundMeaning(
    tests: map<string, Test>, wanted: string, framework: Option<string>, r: Option<string>)
    requires NoWildcards(wanted) && FindsTest(tests, wanted, framework, r)
    ensures r.None? <==> forall k :: !Fits(tests, k, wanted, framework)
    ensures r.Some? ==>
      && Fits(tests, r.value, wanted, framework)
      && forall k :: Fits(tests, k, wanted, framework) && k != r.value ==>
           && NoWorse(tests, r.value, k, wanted)
           && (NoWorse(tests, k, r.value, wanted) ==> NewerOrFirst(tests, r.value, k))
  {
    forall k ensures Fits(tests, k, wanted, framework) <==> IsCandidate(tests, k, wanted, framework) {
      FitsIsCandidate(tests, k, wanted, framework);
    }
    if r.Some? {
      hide Like, EndsIn, Holds;
      var id := r.value;
      RankMeaning(tests, id, wanted);
      forall k | Fits(tests, k, wanted, framework) && k != id
        ensures NoWorse(tests, id, k, wanted)
        ensures NoWorse(tests, k, id, wanted) ==> NewerOrFirst(tests, id, k)
      {
        assert Precedes(tests, wanted, id, k);
        RankMeaning(tests, k, wanted);
      }
    }
  }

  // ---- the test an artifact names ----

  /** The search always has an answer. */
  lemma AnswerExists(tests: map<string, Test>, wanted: string, framework: Option<string>) returns (r: Option<string>)
    ensures FindsTest(tests, wanted, framework, r)
  {
    hide Precedes, MatchRank;
    r := None;
    var rest, seen := tests.Keys, {};
    while rest != {}
      invariant rest + seen == tests.Keys && rest !! seen
      invariant r.None? ==> forall k :: k in seen ==> !IsCandidate(tests, k, wanted, framework)
      invariant r.Some? ==> r.value in seen && IsCandidate(tests, r.value, wanted, framework)
      invariant r.Some? ==> forall k ::
        k in seen && k != r.value && IsCandidate(tests, k, wanted, framework) ==> Precedes(tests, wanted, r.value, k)
      decreases rest
    {
      var id :| id in rest;
      BetterOfTwo(tests, wanted, framework, seen, r, id);
      if IsCandidate(tests, id, wanted, framework) && (r.None? || Precedes(tests, wanted, id, r.value)) {
        r := Some(id);
      }
      rest, seen := rest - {id}, seen + {id};
    }
  }

  lemma FindIs(d: Db, wanted: string, framework: Option<string>)
    ensures FindsTest(d.tests, wanted, framework, FindTest(d, wanted, framework))
  {
    var r := AnswerExists(d.tests, wanted, framework);
    if r.Some? { assert IsBest(d.tests, r.value, wanted, framework); }
  }

  /** The answer to a search that has one, or to a wider search. */
  ghost predicate Preferred(d: Db, wanted: string, framework: string, r: Option<string>) {
    && (r.None? <==> forall k :: !Fits(d.tests, k, wanted, None))
    && (r.Some? ==> Fits(d.tests, r.value, wanted, None))
    && ((exists k :: Fits(d.tests, k, wanted, Some(framework))) ==>
          r.Some? && Fits(d.tests, r.value, wanted, Some(framework)))
  }

  /** A waveform belongs to a test of its own framework if one has the name, or else to any that has it. */
  lemma EitherMeaning(d: Db, wanted: string, framework: string)
    requires NoWildcards(wanted) && framework != ""
    ensures Preferred(d, wanted, framework, FindEither(d, wanted, Some(framework)))
  {
    hide FindTest, Fits, NoWorse, NewerOrFirst;
    FindIs(d, wanted, Some(framework));
    FindIs(d, wanted, None);
    FoundMeaning(d.tests, wanted, Some(framework), FindTest(d, wanted, Some(framework)));
    FoundMeaning(d.tests, wanted, None, FindTest(d, wanted, None));
    forall k | Fits(d.tests, k, wanted, Some(framework)) ensures Fits(d.tests, k, wanted, None) {
      FitsAnyway(d, k, wanted, framework);
    }
  }

  lemma FitsAnyway(d: Db, k: string, wanted: string, framework: string)
    requires Fits(d.tests, k, wanted, Some(framework))
    ensures Fits(d.tests, k, wanted, None)
  {
  }

  /** In a consistent index bundles and coverage reports prefer cocotb tests, and log assertions UVM tests. */
  lemma ResolvedMeaning(lib: Library, d: Db, wanted: string)
    requires IndexInvariants.Consistent(lib, d) && NoWildcards(wanted)
    ensures Preferred(d, wanted, "cocotb", ResolveTwice(d, wanted))
    ensures Preferred(d, wanted, "uvm", ResolveTest(d, wanted, Some("uvm")))
  {
    hide FindEither, Fits;
    EitherMeaning(d, wanted, "cocotb");
    EitherMeaning(d, wanted, "uvm");
    FitsIsThere(d, wanted);
    IndexInvariants.SecondLookupIdle(lib, d, wanted);
    forall t | t in d.tests ensures d.tests[t].runId in d.runs { assert IndexInvariants.TestOk(lib, d, t); }
  }

  lemma FitsIsThere(d: Db, wanted: string)
    ensures forall k :: Fits(d.tests, k, wanted, None) ==> k in d.tests
  {
  }

  /** A waveform file may spell its framework in capitals. */
  lemma CapitalsToo()
    ensures LowerOption(Some("UVM")) == Some("uvm") && LowerOption(Some("Cocotb")) == Some("cocotb")
    ensures LowerOption(None) == None
  {
    PythonText.LowerFixed("ocotb");
    assert "UVM"[1..] == "VM" && "VM"[1..] == "M" && "M"[1..] == "" && "Cocotb"[1..] == "ocotb";
    assert PythonText.Lower("M") == "m";
    assert PythonText.Lower("VM") == "v" + "m" && "v" + "m" == "vm";
    assert PythonText.Lower("UVM") == "u" + "vm" && "u" + "vm" == "uvm";
    assert PythonText.Lower("Cocotb") == "c" + "ocotb" && "c" + "ocotb" == "cocotb";
    var capitals, mixed := "UVM", "Cocotb";
    assert LowerOption(Some(capitals)) == Some(PythonText.Lower(capitals));
    assert LowerOption(Some(mixed)) == Some(PythonText.Lower(mixed));
  }
}
