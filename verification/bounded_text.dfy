/** Text cut to a maximum length, with or without regard to its lines. */
module BoundedText {
  import opened Common
  import opened PythonText

  /** Every part followed by a newline. */
  function Terminated(parts: seq<string>): string {
    if parts == [] then "" else parts[0] + "\n" + Terminated(parts[1..])
  }

  lemma {:induction false} TerminatedConcat(a: seq<string>, b: seq<string>)
    ensures Terminated(a + b) == Terminated(a) + Terminated(b)
  {
    if a == [] {
      assert a + b == b;
    } else {
      assert (a + b)[1..] == a[1..] + b;
      TerminatedConcat(a[1..], b);
    }
  }

  lemma {:induction false} JoinTerminated(parts: seq<string>)
    requires parts != []
    ensures Join(parts, '\n') + "\n" == Terminated(parts)
  {
    if |parts| > 1 { JoinTerminated(parts[1..]); }
  }

  lemma JoinLast(parts: seq<string>, last: string)
    ensures Join(parts + [last], '\n') == Terminated(parts) + last
  {
    TerminatedConcat(parts, [last]);
    JoinTerminated(parts + [last]);
    assert Terminated([last]) == last + "\n" by { assert Terminated([]) == ""; }
    assert Join(parts + [last], '\n') + "\n" == (Terminated(parts) + last) + "\n";
    var x, y := Join(parts + [last], '\n'), Terminated(parts) + last;
    assert x == (x + "\n")[..|x|] && y == (y + "\n")[..|y|];
  }

  function DropFinalNewline(s: string): string {
    if s != "" && s[|s| - 1] == '\n' then s[..|s| - 1] else s
  }

  /** The result in closed form: a plain cut, less the newline the cut may end in. */
  function Truncated(text: string, maxLength: int, suffix: string, preserveNewlines: bool): string {
    if |text| <= maxLength then text
    else if !preserveNewlines then Take(text, maxLength - |suffix|) + suffix
    else if maxLength < |suffix| then suffix
    else DropFinalNewline(Take(text, maxLength - |suffix|)) + suffix
  }

  method TruncateText(text: string, maxLength: int, suffix: string, preserveNewlines: bool) returns (r: string)
    ensures r == Truncated(text, maxLength, suffix, preserveNewlines)
  {
    if |text| <= maxLength {
      return text;
    }
    if !preserveNewlines {
      return Take(text, maxLength - |suffix|) + suffix;
    }
    hide Join;
    var lines := Split(text, '\n');
    var kept: seq<string> := [];
    var length := 0;
    JoinSplit(text, '\n');
    SplitClean(text, '\n');
    JoinTerminated(lines);
    var i := 0;
    while i < |lines|
      invariant 0 <= i <= |lines| && kept == lines[..i]
      invariant text + "\n" == Terminated(kept) + Terminated(lines[i..])
      invariant length == |Terminated(kept)|
      invariant i == 0 || length + |suffix| <= maxLength
    {
      var line := lines[i];
      KeepLine(kept, line, lines[i..]);
      if length + |line| + 1 + |suffix| <= maxLength {
        kept := kept + [line];
        length := length + |line| + 1;
        i := i + 1;
      } else {
        var remaining := maxLength - length - |suffix|;
        CutHere(text, kept, lines[i..], maxLength, suffix);
        if remaining > 0 {
          kept := kept + [line[..remaining]];
        }
        return Join(kept, '\n') + suffix;
      }
    }
    assert false;
  }

  lemma KeepLine(kept: seq<string>, line: string, rest: seq<string>)
    requires rest != [] && rest[0] == line
    ensures Terminated(kept + [line]) == Terminated(kept) + line + "\n"
    ensures Terminated(kept) + Terminated(rest) == Terminated(kept + [line]) + Terminated(rest[1..])
  {
    TerminatedConcat(kept, [line]);
    TerminatedConcat([line], rest[1..]);
    assert [line] + rest[1..] == rest;
    assert Terminated([line]) == line + "\n" by { assert Terminated([]) == ""; }
    Associate(Terminated(kept), line, "\n");
    Associate(Terminated(kept), line + "\n", Terminated(rest[1..]));
  }

  lemma Associate(a: string, b: string, c: string)
    ensures a + (b + c) == a + b + c
  {
  }

  /** The first line that no longer fits decides where the text ends. */
  lemma CutHere(text: string, kept: seq<string>, rest: seq<string>, maxLength: int, suffix: string)
    requires |text| > maxLength && rest != [] && '\n' !in rest[0]
    requires text + "\n" == Terminated(kept) + Terminated(rest)
    requires |Terminated(kept)| + |rest[0]| + 1 + |suffix| > maxLength
    requires kept == [] || |Terminated(kept)| + |suffix| <= maxLength
    ensures var remaining := maxLength - |Terminated(kept)| - |suffix|;
      Join(if remaining > 0 then kept + [rest[0][..remaining]] else kept, '\n') + suffix
        == Truncated(text, maxLength, suffix, true)
  {
    var remaining := maxLength - |Terminated(kept)| - |suffix|;
    if remaining > 0 {
      InsideLine(text, kept, rest, maxLength, suffix);
    } else if remaining == 0 {
      BetweenLines(text, kept, rest, maxLength, suffix);
    } else {
      JoinNothing();
      assert "" + suffix == suffix;
    }
  }

  lemma InsideLine(text: string, kept: seq<string>, rest: seq<string>, maxLength: int, suffix: string)
    requires |text| > maxLength && rest != [] && '\n' !in rest[0]
    requires text + "\n" == Terminated(kept) + Terminated(rest)
    requires 0 < maxLength - |Terminated(kept)| - |suffix| <= |rest[0]|
    ensures var remaining := maxLength - |Terminated(kept)| - |suffix|;
      Join(kept + [rest[0][..remaining]], '\n') + suffix == Truncated(text, maxLength, suffix, true)
  {
    hide Join;
    var remaining := maxLength - |Terminated(kept)| - |suffix|;
    assert Terminated(rest) == rest[0] + "\n" + Terminated(rest[1..]);
    PartialLine(text, kept, rest[0], remaining);
    assert Take(text, maxLength - |suffix|) == text[..|Terminated(kept)| + remaining];
  }

  lemma BetweenLines(text: string, kept: seq<string>, rest: seq<string>, maxLength: int, suffix: string)
    requires |text| > maxLength && |Terminated(kept)| + |suffix| == maxLength
    requires text + "\n" == Terminated(kept) + Terminated(rest)
    ensures Join(kept, '\n') + suffix == Truncated(text, maxLength, suffix, true)
  {
    hide Join;
    WholeLines(text, kept, rest);
    assert Take(text, maxLength - |suffix|) == text[..|Terminated(kept)|];
  }

  lemma JoinNothing()
    ensures Join([], '\n') == ""
  {
  }

  /** The cut falls inside a line, or just before its newline. */
  lemma PartialLine(text: string, kept: seq<string>, line: string, remaining: nat)
    requires 0 < remaining <= |line|
    requires Terminated(kept) + line <= text + "\n" && |Terminated(kept)| + remaining <= |text|
    ensures Join(kept + [line[..remaining]], '\n') == text[..|Terminated(kept)| + remaining]
    ensures text[|Terminated(kept)| + remaining - 1] == line[remaining - 1]
  {
    JoinLast(kept, line[..remaining]);
    var n := |Terminated(kept)| + remaining;
    assert text[..n] == (text + "\n")[..n] == (Terminated(kept) + line)[..n];
    assert (Terminated(kept) + line)[..n] == Terminated(kept) + line[..remaining];
  }

  /** The cut falls between lines. */
  lemma WholeLines(text: string, kept: seq<string>, rest: seq<string>)
    requires text + "\n" == Terminated(kept) + Terminated(rest)
    requires |Terminated(kept)| <= |text|
    ensures Join(kept, '\n') == DropFinalNewline(text[..|Terminated(kept)|])
  {
    var n := |Terminated(kept)|;
    assert text[..n] == (text + "\n")[..n] == Terminated(kept);
    if kept != [] {
      JoinTerminated(kept);
      var j := Join(kept, '\n');
      assert (j + "\n")[..|j|] == j;
    }
  }

  /**
   A cut text keeps to the limit exactly when it needed no cut or the suffix itself fits: with a
   limit shorter than the suffix the result is always too long.
   */
  lemma TruncatedFits(text: string, maxLength: int, suffix: string, preserveNewlines: bool)
    ensures |Truncated(text, maxLength, suffix, preserveNewlines)| <= maxLength
      <==> |text| <= maxLength || |suffix| <= maxLength
  {
  }

  /** A limit of two, a suffix of three: the text of four characters comes back as the suffix, one too long. */
  lemma SuffixTooLong()
    ensures Truncated("abcd", 2, "...", true) == "..." && |Truncated("abcd", 2, "...", true)| > 2
    ensures |Truncated("abcd", 2, "...", false)| > 2
  {
  }

  /** The two modes differ by one final newline at most. */
  lemma ModesAgree(text: string, maxLength: int, suffix: string)
    requires |suffix| <= maxLength
    ensures var plain, lines := Truncated(text, maxLength, suffix, false), Truncated(text, maxLength, suffix, true);
      lines == plain
      || (|text| > maxLength && plain == text[..maxLength - |suffix|] + suffix
          && text[maxLength - |suffix| - 1] == '\n' && lines == text[..maxLength - |suffix| - 1] + suffix)
  {
    if |text| > maxLength {
      var cut := Take(text, maxLength - |suffix|);
      assert cut == text[..maxLength - |suffix|];
      if cut != "" { assert cut[..|cut| - 1] == text[..maxLength - |suffix| - 1]; }
    }
  }

  /** `lines[a:b]` for a non-negative start and any end. */
  function LineRange(lines: seq<string>, a: nat, b: int): seq<string> {
    var upTo := Take(lines, b);
    if a <= |upTo| then upTo[a..] else []
  }

  /** Line numbers are one-based; zero and None mean "not given". */
  function ExcerptLines(lines: seq<string>, startLine: Option<int>, endLine: Option<int>, context: int): seq<string> {
    if startLine.None? && endLine.None? then Take(lines, Min(|lines|, 10))
    else
      var s := if startLine.GetOr(0) == 0 then 1 else startLine.value;
      var e := if endLine.GetOr(0) == 0 then |lines| else endLine.value;
      LineRange(lines, Max(0, s - 1 - context), Min(|lines|, e + context))
  }

  method ExtractExcerpt(
    text: string, startLine: Option<int>, endLine: Option<int>, maxLength: int, context: int)
    returns (r: string)
    ensures var lines := ExcerptLines(Split(text, '\n'), startLine, endLine, context);
      r == Truncated(Join(lines, '\n'), maxLength, "...", true)
    ensures maxLength >= 3 ==> |r| <= maxLength
  {
    var excerpt := Join(ExcerptLines(Split(text, '\n'), startLine, endLine, context), '\n');
    r := TruncateText(excerpt, maxLength, "...", true);
    TruncatedFits(excerpt, maxLength, "...", true);
  }

  /** The requested lines with their context, cut at both ends of the text. */
  lemma ExcerptRange(lines: seq<string>, first: int, last: int, context: nat)
    requires 1 <= first <= last <= |lines|
    ensures ExcerptLines(lines, Some(first), Some(last), context)
      == lines[Max(1, first - context) - 1..Min(|lines|, last + context)]
  {
    var b := Min(|lines|, last + context);
    assert Take(lines, b) == lines[..b];
    assert lines[..b][Max(1, first - context) - 1..] == lines[Max(1, first - context) - 1..b];
  }

  lemma RangeReadsBack(lines: seq<string>, a: nat, b: nat)
    requires a < b <= |lines| && forall i :: 0 <= i < |lines| ==> '\n' !in lines[i]
    ensures Split(Join(lines[a..b], '\n'), '\n') == lines[a..b]
  {
    hide Split, Join;
    SplitJoin(lines[a..b], '\n');
  }

  /** An excerpt that fits gives back the requested lines themselves, context included. */
  lemma ExcerptKeepsLines(text: string, first: int, last: int, context: nat)
    requires 1 <= first <= last <= |Split(text, '\n')|
    ensures var lines := Split(text, '\n');
      var excerpt := ExcerptLines(lines, Some(first), Some(last), context);
      && excerpt == lines[Max(1, first - context) - 1..Min(|lines|, last + context)]
      && Split(Join(excerpt, '\n'), '\n') == excerpt
  {
    hide Split, Join, ExcerptLines;
    var lines := Split(text, '\n');
    SplitClean(text, '\n');
    ExcerptRange(lines, first, last, context);
    RangeReadsBack(lines, Max(1, first - context) - 1, Min(|lines|, last + context));
  }

  /** Line `n`, counted from one, lies in the range asked for or within the context around it. */
  predicate Requested(lines: seq<string>, startLine: Option<int>, endLine: Option<int>, context: int, n: int) {
    && 1 <= n <= |lines|
    && (startLine.GetOr(0) != 0 ==> startLine.value - context <= n)
    && (endLine.GetOr(0) != 0 ==> n <= endLine.value + context)
    && (startLine == None && endLine == None ==> n <= 10)
  }

  /** An end that is not given is that of the text; without either the first ten lines are taken. */
  lemma ExcerptMeaning(
    lines: seq<string>, startLine: Option<int>, endLine: Option<int>, context: nat, n: int)
    requires startLine.GetOr(0) >= 0 && endLine.GetOr(0) >= 0
    ensures var r := ExcerptLines(lines, startLine, endLine, context);
      Requested(lines, startLine, endLine, context, n) <==>
        exists k :: 0 <= k < |r| && IsLine(lines, startLine, context, k, n) && r[k] == lines[n - 1]
  {
    var r := ExcerptLines(lines, startLine, endLine, context);
    var a := Max(0, startLine.GetOr(0) - 1 - context);
    assert forall k :: 0 <= k < |r| ==> a + k < |lines| && r[k] == lines[a + k];
    if Requested(lines, startLine, endLine, context, n) {
      assert IsLine(lines, startLine, context, n - 1 - a, n) && r[n - 1 - a] == lines[n - 1];
    }
  }

  /** Place `k` of the excerpt shows line `n`. */
  predicate IsLine(lines: seq<string>, startLine: Option<int>, context: int, k: int, n: int) {
    1 <= n <= |lines| && k == n - Max(1, startLine.GetOr(0) - context)
  }
}
