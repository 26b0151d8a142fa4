/** The balanced-brace scan that cuts the data object out of a coverage report script. */
module CoverageReports {

  /** Text between a pair of braces: plain characters and nested blocks. */
  datatype Body = End | Plain(c: char, rest: Body) | Nest(inner: Body, rest: Body)

  predicate BraceFree(b: Body) {
    match b
    case End => true
    case Plain(c, rest) => c != '{' && c != '}' && BraceFree(rest)
    case Nest(inner, rest) => BraceFree(inner) && BraceFree(rest)
  }

  function Render(b: Body): string {
    match b
    case End => ""
    case Plain(c, rest) => [c] + Render(rest)
    case Nest(inner, rest) => "{" + Render(inner) + "}" + Render(rest)
  }

  function Block(b: Body): string { "{" + Render(b) + "}" }

  function Delta(c: char): int { if c == '{' then 1 else if c == '}' then -1 else 0 }

  /** Opening braces minus closing braces. */
  function Depth(s: string): int {
    if s == "" then 0 else Depth(s[..|s| - 1]) + Delta(s[|s| - 1])
  }

  /** `s[..n]` ends in the closing brace that first brings the depth back to zero. */
  ghost predicate Closes(s: string, n: nat) {
    && 0 < n <= |s| && s[n - 1] == '}' && Depth(s[..n]) == 0
    && forall k :: 0 < k < n && s[k - 1] == '}' ==> Depth(s[..k]) != 0
  }

  /** The scan of the report parser; 0 when no brace closes the block. */
  method ScanBlock(s: string) returns (end: nat)
    ensures end > 0 ==> Closes(s, end)
    ensures end == 0 ==> forall n: nat :: !Closes(s, n)
  {
    var depth := 0;
    end := 0;
    var i := 0;
    while i < |s|
      invariant 0 <= i <= |s| && depth == Depth(s[..i])
      invariant forall k :: 0 < k <= i && s[k - 1] == '}' ==> Depth(s[..k]) != 0
    {
      assert s[..i + 1][..i] == s[..i];
      if s[i] == '{' {
        depth := depth + 1;
      } else if s[i] == '}' {
        depth := depth - 1;
        if depth == 0 {
          return i + 1;
        }
      }
      i := i + 1;
    }
  }

  lemma ClosesUnique(s: string, m: nat, n: nat)
    requires Closes(s, m) && Closes(s, n)
    ensures m == n
  {
  }

  lemma {:induction false} DepthConcat(a: string, b: string)
    ensures Depth(a + b) == Depth(a) + Depth(b)
  {
    if b == "" {
      assert a + b == a;
    } else {
      assert (a + b)[..|a + b| - 1] == a + b[..|b| - 1];
      DepthConcat(a, b[..|b| - 1]);
    }
  }

  /** No prefix of the text goes below its starting depth, and the whole text returns to it. */
  ghost predicate Balanced(s: string) {
    Depth(s) == 0 && forall k :: 0 <= k <= |s| ==> Depth(s[..k]) >= 0
  }

  lemma DepthPair(c: char, s: string)
    ensures Depth([c]) == Delta(c)
    ensures Depth([c] + s) == Delta(c) + Depth(s)
  {
    assert [c][..0] == "";
    DepthConcat([c], s);
  }

  lemma BalancedPlain(c: char, s: string)
    requires c != '{' && c != '}' && Balanced(s)
    ensures Balanced([c] + s)
  {
    DepthPair(c, s);
    forall k | 0 < k <= |s| + 1 ensures Depth(([c] + s)[..k]) >= 0 {
      assert ([c] + s)[..k] == [c] + s[..k - 1];
      DepthPair(c, s[..k - 1]);
    }
  }

  /** Inside a block the depth is at least one, until its closing brace. */
  lemma BlockDepth(s: string, k: nat)
    requires Balanced(s) && 0 < k <= |s| + 1
    ensures Depth(("{" + s + "}")[..k]) >= 1
    ensures Depth("{" + s + "}") == 0
  {
    assert ("{" + s + "}")[..k] == ['{'] + s[..k - 1];
    DepthPair('{', s[..k - 1]);
    DepthPair('{', s);
    DepthPair('}', "");
    DepthConcat("{" + s, "}");
    assert "{" + s == ['{'] + s && "}" == ['}'];
  }

  lemma BalancedNest(inner: string, rest: string)
    requires Balanced(inner) && Balanced(rest)
    ensures Balanced("{" + inner + "}" + rest)
  {
    var b := "{" + inner + "}";
    BlockDepth(inner, 1);
    DepthConcat(b, rest);
    forall k | 0 <= k <= |b + rest| ensures Depth((b + rest)[..k]) >= 0 {
      if k <= |b| {
        assert (b + rest)[..k] == b[..k];
        if 0 < k < |b| { BlockDepth(inner, k); }
        if k == |b| { assert b[..k] == b; }
      } else {
        assert (b + rest)[..k] == b + rest[..k - |b|];
        DepthConcat(b, rest[..k - |b|]);
      }
    }
  }

  lemma {:induction false} RenderBalanced(b: Body)
    requires BraceFree(b)
    ensures Balanced(Render(b))
  {
    match b
    case End =>
    case Plain(c, rest) =>
      RenderBalanced(rest);
      BalancedPlain(c, Render(rest));
    case Nest(inner, rest) =>
      RenderBalanced(inner);
      RenderBalanced(rest);
      BalancedNest(Render(inner), Render(rest));
  }

  lemma BalancedBlockCloses(s: string, rest: string)
    requires Balanced(s)
    ensures Closes("{" + s + "}" + rest, |s| + 2)
  {
    var b := "{" + s + "}";
    assert (b + rest)[..|s| + 2] == b;
    BlockDepth(s, 1);
    forall k | 0 < k < |b| ensures Depth((b + rest)[..k]) != 0 {
      assert (b + rest)[..k] == b[..k];
      BlockDepth(s, k);
    }
  }

  /** Whatever follows a well-nested block, the scan cuts out exactly the block. */
  lemma BlockIsCutOut(b: Body, rest: string)
    requires BraceFree(b)
    ensures Closes(Block(b) + rest, |Block(b)|)
    ensures forall n: nat :: Closes(Block(b) + rest, n) ==> (Block(b) + rest)[..n] == Block(b)
  {
    RenderBalanced(b);
    BalancedBlockCloses(Render(b), rest);
    forall n: nat | Closes(Block(b) + rest, n) ensures (Block(b) + rest)[..n] == Block(b) {
      ClosesUnique(Block(b) + rest, |Block(b)|, n);
    }
  }

  // ---- the other direction: whatever the scan cuts out is a well-nested block ----

  /** Where the depth first drops below its start. */
  lemma {:induction false} FirstDrop(s: string, k: nat) returns (m: nat)
    requires k <= |s| && Depth(s[..k]) < 0
    ensures m < k && s[m] == '}' && Depth(s[..m]) == 0 && forall j :: 0 <= j <= m ==> Depth(s[..j]) >= 0
  {
    var i := 0;
    while Depth(s[..i]) >= 0
      invariant i <= k && forall j :: 0 <= j < i ==> Depth(s[..j]) >= 0
      decreases k - i
    {
      i := i + 1;
    }
    m := i - 1;
    assert s[..i][..m] == s[..m];
  }

  lemma PrefixBalanced(s: string, m: nat)
    requires m <= |s| && Depth(s[..m]) == 0 && forall j :: 0 <= j <= m ==> Depth(s[..j]) >= 0
    ensures Balanced(s[..m])
  {
    forall j | 0 <= j <= m ensures Depth(s[..m][..j]) >= 0 {
      assert s[..m][..j] == s[..j];
    }
  }

  /** A balanced text that opens with a brace is a block followed by a balanced text. */
  lemma OpeningBlock(s: string) returns (m: nat)
    requires s != "" && s[0] == '{' && Balanced(s)
    ensures m + 2 <= |s| && s[m + 1] == '}' && Balanced(s[1..][..m]) && Balanced(s[m + 2..])
  {
    var t := s[1..];
    assert s == ['{'] + t;
    DepthPair('{', t);
    assert t[..|t|] == t;
    m := FirstDrop(t, |t|);
    PrefixBalanced(t, m);
    var front, back := s[..m + 2], s[m + 2..];
    assert front == "{" + t[..m] + "}";
    BlockDepth(t[..m], 1);
    assert s == front + back;
    DepthConcat(front, back);
    forall k | 0 <= k <= |back| ensures Depth(back[..k]) >= 0 {
      assert s[..m + 2 + k] == front + back[..k];
      DepthConcat(front, back[..k]);
    }
  }

  lemma BalancedTail(s: string)
    requires s != "" && s[0] != '{' && Balanced(s)
    ensures s[0] != '}' && Balanced(s[1..])
  {
    assert s[..1] == [s[0]];
    assert s == [s[0]] + s[1..];
    DepthPair(s[0], s[1..]);
    assert Depth(s[..1]) >= 0;
    forall k | 0 <= k <= |s[1..]| ensures Depth(s[1..][..k]) >= 0 {
      assert s[..k + 1] == [s[0]] + s[1..][..k];
      DepthPair(s[0], s[1..][..k]);
    }
  }

  lemma {:induction false} BalancedParses(s: string) returns (b: Body)
    requires Balanced(s)
    ensures BraceFree(b) && Render(b) == s
    decreases |s|
  {
    if s == "" {
      b := End;
    } else if s[0] == '{' {
      var m := OpeningBlock(s);
      var inner := BalancedParses(s[1..][..m]);
      var rest := BalancedParses(s[m + 2..]);
      b := Nest(inner, rest);
      assert s == "{" + s[1..][..m] + "}" + s[m + 2..];
    } else {
      BalancedTail(s);
      var rest := BalancedParses(s[1..]);
      b := Plain(s[0], rest);
    }
  }

  /** What the scan cuts out of a text that opens with a brace is a well-nested block. */
  lemma CutOutIsBlock(s: string, n: nat) returns (b: Body)
    requires s != "" && s[0] == '{' && Closes(s, n)
    ensures BraceFree(b) && s[..n] == Block(b)
  {
    var t := s[1..n - 1];
    assert s[..1] == ['{'];
    DepthPair('{', "");
    assert n >= 2;
    InnerBalanced(s, n);
    b := BalancedParses(t);
    assert s[..n] == "{" + t + "}";
  }

  lemma InnerBalanced(s: string, n: nat)
    requires n >= 2 && s != "" && s[0] == '{' && Closes(s, n)
    ensures Balanced(s[1..n - 1])
  {
    var t := s[1..n - 1];
    forall k | 0 <= k <= |t| ensures Depth(t[..k]) >= 0 {
      InnerDepth(s, n, k);
    }
    assert s[..n] == ("{" + t) + "}";
    DepthConcat("{" + t, "}");
    DepthPair('{', t);
    DepthPair('}', "");
    assert "{" + t == ['{'] + t && "}" == ['}'];
  }

  lemma {:induction false} InnerDepth(s: string, n: nat, k: nat)
    requires n >= 2 && s != "" && s[0] == '{' && Closes(s, n) && k <= n - 2
    ensures Depth(s[1..n - 1][..k]) >= 0
    ensures Depth(s[..k + 1]) == 1 + Depth(s[1..n - 1][..k])
  {
    var t := s[1..n - 1];
    assert s[..k + 1] == ['{'] + t[..k];
    DepthPair('{', t[..k]);
    if k > 0 {
      InnerDepth(s, n, k - 1);
      assert t[..k][..k - 1] == t[..k - 1] && s[..k + 1][..k] == s[..k];
      if s[k] == '}' { assert Depth(s[..k + 1]) != 0; }
    }
  }
}
