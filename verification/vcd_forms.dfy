/**
 What the line loop makes of the dump forms it does not read, and which times a dump can have at
 all, whatever its lines.
 */
module VcdForms {
  import opened Common
  import opened PythonText
  import opened VcdTrace

  lemma {:induction false} WordsAreWords(s: string)
    ensures forall i :: 0 <= i < |Words(s)| ==> IsWord(Words(s)[i])
    decreases |s|
  {
    if s != "" && IsSpace(s[0]) {
      WordsAreWords(s[1..]);
    } else if s != "" {
      WordLengthFree(s);
      WordsAreWords(s[WordLength(s)..]);
    }
  }

  lemma {:induction false} WordLengthFree(s: string)
    ensures SpaceFree(s[..WordLength(s)])
  {
    if s != "" && !IsSpace(s[0]) {
      WordLengthFree(s[1..]);
      assert s[..WordLength(s)] == [s[0]] + s[1..][..WordLength(s[1..])];
    }
  }

  /** Whatever has been read, only words are ever declared. */
  lemma {:induction false} DeclaredAreWords(raws: seq<string>)
    ensures forall id :: id in Run(ReadLines(raws)).declarations ==> IsWord(id)
  {
    if raws != [] {
      var n := |raws| - 1;
      DeclaredAreWords(raws[..n]);
      assert ReadLines(raws)[..n] == ReadLines(raws[..n]);
      WordsAreWords(Strip(raws[n]));
      assert Classify(Strip(raws[n])).Declare? ==> IsWord(Classify(Strip(raws[n])).id);
    }
  }

  /** A change written with a separate identifier: `b1010 !`, `B1010 !`, `r1.5 !`, `R1.5 !`. */
  function Separated(form: char, digits: string, id: string): string { [form] + digits + " " + id }

  lemma SeparatedReads(form: char, digits: string, id: string)
    requires !IsSpace(form) && form != '$' && form != '#' && IsWord(digits) && IsWord(id)
    ensures var s := Separated(form, digits, id);
      Classify(s) == if form == 'b' then Change(id, digits) else Change(digits + " " + id, [form])
  {
    var s := Separated(form, digits, id);
    if form == 'b' {
      VectorReadsBack(digits, id);
      assert s == Render(Vector(digits, id));
    } else {
      assert s[0] == form && s[1..] == digits + " " + id;
      var rest := digits + " " + id;
      assert rest[0] == digits[0] && rest[|rest| - 1] == id[|id| - 1];
      StripPadded("", rest, "");
      assert "" + rest + "" == rest;
    }
  }

  /**
   Of the changes written with a separate identifier exactly the lower-case vectors of declared
   signals are applied: upper-case vectors and real values of either case leave no trace, whatever
   has been read before.
   */
  lemma SeparatedApplied(raws: seq<string>, form: char, digits: string, id: string)
    requires !IsSpace(form) && form != '$' && form != '#' && IsWord(digits) && IsWord(id)
    ensures var c := Run(ReadLines(raws));
      Step(c, Classify(Separated(form, digits, id))) != c <==> form == 'b' && id in c.declarations
  {
    var c := Run(ReadLines(raws));
    SeparatedReads(form, digits, id);
    DeclaredAreWords(raws);
    var joined := digits + " " + id;
    assert joined[|digits|] == ' ' && !SpaceFree(joined);
    assert |Step(c, Change(id, digits)).events| == |c.events| + if id in c.declarations then 1 else 0;
  }

  lemma SingleWord(w: string)
    requires IsWord(w)
    ensures Words(w) == [w]
  {
    WordsStep(w, "");
    assert w + "" == w;
  }

  lemma BareTimescale()
    ensures Classify("$timescale") == Ignored
  {
    hide Words, ScaleOf;
    var line := "$timescale";
    SingleWord(line);
    assert TimescaleWords([line]) == Ignored;
  }

  lemma BareEnd()
    ensures Classify("$end") == Ignored
  {
    assert "$end"[1] == 'e' && "$timescale"[1] == 't' && "$var"[1] == 'v';
  }

  lemma DigitLine(digit: char, rest: string)
    requires IsDigit(digit) && IsWord(rest)
    ensures Classify([digit] + rest) == Change(rest, [digit])
  {
    var line := [digit] + rest;
    assert line[0] == digit && line[1..] == rest;
    WordTrimmed(rest);
  }

  /**
   A time scale whose section is spread over three lines is not read: its keyword lines are passed
   over, and its middle line is taken for a change of a signal called like the unit.
   */
  lemma SplitTimescale(c: Context, amount: string, unit: string)
    requires amount != "" && AllDigits(amount) && UnitFemtoseconds(unit).Some?
    ensures Classify("$timescale") == Ignored == Classify("$end")
    ensures Classify(amount + unit) == Change(amount[1..] + unit, [amount[0]])
    ensures Step(Step(Step(c, Classify("$timescale")), Classify(amount + unit)), Classify("$end")).scale == c.scale
  {
    hide Classify;
    BareTimescale();
    BareEnd();
    UnitIsWord(unit);
    assert amount + unit == [amount[0]] + (amount[1..] + unit);
    DigitLine(amount[0], amount[1..] + unit);
  }

  // ---- time scale sections, however they are laid out ----

  function RunFrom(c: Context, commands: seq<Command>): Context {
    if commands == [] then c
    else Step(RunFrom(c, commands[..|commands| - 1]), commands[|commands| - 1])
  }

  /** The words of a time scale section, with the unit behind its amount or joined to it. */
  function SectionWords(amount: string, unit: string, joined: bool): seq<string> {
    ["$timescale"] + (if joined then [amount + unit] else [amount, unit]) + ["$end"]
  }

  predicate IsSection(amount: string, unit: string) {
    amount != "" && AllDigits(amount) && UnitFemtoseconds(unit).Some?
  }

  function Flatten(groups: seq<seq<string>>): seq<string> {
    if groups == [] then [] else Flatten(groups[..|groups| - 1]) + groups[|groups| - 1]
  }

  /** Each group of words lies within the whole. */
  lemma {:induction false} GroupWithin(groups: seq<seq<string>>, i: nat) returns (a: nat)
    requires i < |groups|
    ensures a + |groups[i]| <= |Flatten(groups)| && Flatten(groups)[a..a + |groups[i]|] == groups[i]
  {
    var n := |groups| - 1;
    var front := Flatten(groups[..n]);
    if i == n {
      a := |front|;
    } else {
      a := GroupWithin(groups[..n], i);
      assert Flatten(groups)[a..a + |groups[i]|] == front[a..a + |groups[i]|];
    }
  }

  lemma SectionFacts(amount: string, unit: string, joined: bool, k: nat)
    requires IsSection(amount, unit) && k < |SectionWords(amount, unit, joined)|
    ensures var ws := SectionWords(amount, unit, joined);
      && IsWord(ws[k])
      && (Lower(ws[k]) == "$end" <==> k == |ws| - 1)
      && (k > 0 ==> !("$timescale" <= ws[k]) && (ws[k][0] == '$' ==> ws[k] == "$end"))
  {
    hide Lower;
    UnitIsWord(unit);
    LowerFixed("$end");
    var ws := SectionWords(amount, unit, joined);
    LowerFirst(ws[k]);
    assert "$timescale"[1] == 't' && "$end"[1] == 'e';
    if k == 0 { LowerLength(ws[0]); }
    UnitLetter(unit);
  }

  lemma LowerFirst(s: string)
    requires s != ""
    ensures Lower(s) != "" && Lower(s)[0] == LowerChar(s[0])
  {
  }

  lemma LowerLength(s: string)
    ensures |Lower(s)| == |s|
  {
  }

  lemma UnitLetter(unit: string)
    requires UnitFemtoseconds(unit).Some?
    ensures 'a' <= unit[0] <= 'z'
  {
  }

  /** A line that does not end its section is not read as a time scale. */
  lemma UnfinishedSection(ws: seq<string>)
    requires ws != [] && forall i :: 0 <= i < |ws| ==> IsWord(ws[i])
    requires ws[0] != "$timescale" || Lower(ws[|ws| - 1]) != "$end"
    ensures TimescaleWords(ws) == Ignored
  {
    hide ScaleOf;
  }

  /** A line of the section is read as a time scale exactly when it holds the whole section. */
  lemma GroupRead(amount: string, unit: string, joined: bool, line: string, a: nat)
    requires IsSection(amount, unit) && (line == "" || !IsSpace(line[0]))
    requires a + |Words(line)| <= |SectionWords(amount, unit, joined)|
    requires SectionWords(amount, unit, joined)[a..a + |Words(line)|] == Words(line)
    ensures Classify(line).Timescale? <==> Words(line) == SectionWords(amount, unit, joined)
    ensures Words(line) == SectionWords(amount, unit, joined) ==>
      Classify(line) == Timescale(NatValue(amount) * UnitFemtoseconds(unit).value)
  {
    hide Classify, SectionWords, Lower, TimescaleWords, ScaleOf, Words;
    var ws, g := SectionWords(amount, unit, joined), Words(line);
    forall k | 0 <= k < |ws|
      ensures IsWord(ws[k]) && (Lower(ws[k]) == "$end" <==> k == |ws| - 1)
      ensures k > 0 ==> !("$timescale" <= ws[k]) && (ws[k][0] == '$' ==> ws[k] == "$end")
    {
      SectionFacts(amount, unit, joined, k);
    }
    FirstOfSection(amount, unit, joined);
    if line == "" {
      BlankLine();
      assert ws != [];
    } else {
      FirstWord(line);
      assert forall k :: 0 <= k < |g| ==> g[k] == ws[a + k];
      if a == 0 {
        OneLineScale(line);
        if g == ws {
          WholeSection(amount, unit, joined);
        } else {
          UnfinishedSection(g);
        }
      } else {
        LaterLine(line);
      }
    }
  }

  /** A line that starts with no blank starts with its first word, and with nothing else. */
  lemma FirstWord(line: string)
    requires line != "" && !IsSpace(line[0])
    ensures Words(line) != [] && Words(line)[0] <= line && Words(line)[0] != ""
    ensures forall p :: SpaceFree(p) && p <= line ==> p <= Words(line)[0]
  {
    var n := WordLength(line);
    forall p | SpaceFree(p) && p <= line ensures p <= line[..n] { PrefixInWord(p, line); }
  }

  lemma {:induction false} PrefixInWord(p: string, line: string)
    requires SpaceFree(p) && p <= line
    ensures |p| <= WordLength(line)
  {
    if p != "" { PrefixInWord(p[1..], line[1..]); }
  }

  lemma OneLineScale(line: string)
    requires line != "" && !IsSpace(line[0]) && Words(line) != [] && Words(line)[0] == "$timescale"
    ensures Classify(line) == TimescaleWords(Words(line))
  {
    hide Words, TimescaleWords;
    FirstWord(line);
  }

  lemma FirstOfSection(amount: string, unit: string, joined: bool)
    ensures SectionWords(amount, unit, joined) != [] && SectionWords(amount, unit, joined)[0] == "$timescale"
  {
  }

  lemma BlankLine()
    ensures Classify("") == Ignored && Words("") == []
  {
  }

  lemma NotTimescale(line: string)
    requires |line| >= 2 ==> line[0] != '$' || line[1] != 't'
    ensures !Classify(line).Timescale?
  {
    hide Words, ParseInt, Strip, VarLine;
    assert |line| < 2 ==> !("$timescale" <= line);
    assert "$timescale"[0] == '$' && "$timescale"[1] == 't';
    VarIsNotTimescale(line);
  }

  lemma VarIsNotTimescale(line: string)
    ensures !VarLine(line).Timescale?
  {
    hide Words;
  }

  lemma LaterLine(line: string)
    requires line != "" && !IsSpace(line[0]) && Words(line) != [] && Words(line)[0] != ""
    requires Words(line)[0][0] == '$' ==> Words(line)[0] == "$end"
    ensures !Classify(line).Timescale?
  {
    hide Words, Classify;
    FirstWord(line);
    var w := Words(line)[0];
    assert line[0] == w[0];
    if w == "$end" { assert line[1] == w[1] == 'e'; }
    NotTimescale(line);
  }

  lemma WholeSection(amount: string, unit: string, joined: bool)
    requires IsSection(amount, unit)
    ensures TimescaleWords(SectionWords(amount, unit, joined))
      == Timescale(NatValue(amount) * UnitFemtoseconds(unit).value)
  {
    hide TimescaleWords;
    UnitIsWord(unit);
    ScaleForms(amount, unit);
    LowerFixed(unit);
  }

  /** Commands whose time scales all agree leave that scale, or the old one when there are none. */
  lemma {:induction false} AgreedScale(c: Context, commands: seq<Command>, scale: int)
    requires forall i :: 0 <= i < |commands| && commands[i].Timescale? ==> commands[i].femtoseconds == scale
    ensures RunFrom(c, commands).scale ==
      if exists i :: 0 <= i < |commands| && commands[i].Timescale? then scale else c.scale
  {
    if commands != [] {
      var n := |commands| - 1;
      AgreedScale(c, commands[..n], scale);
      assert forall i :: 0 <= i < n ==> commands[..n][i] == commands[i];
    }
  }

  lemma {:induction false} StripLeftStart(s: string)
    ensures StripLeft(s) == "" || !IsSpace(StripLeft(s)[0])
  {
    if s != "" && IsSpace(s[0]) { StripLeftStart(s[1..]); }
  }

  lemma {:induction false} StripRightFront(s: string)
    ensures StripRight(s) <= s
  {
    if s != "" && IsSpace(s[|s| - 1]) { StripRightFront(s[..|s| - 1]); }
  }

  lemma StripStart(s: string)
    ensures Strip(s) == "" || !IsSpace(Strip(s)[0])
  {
    StripLeftStart(s);
    StripRightFront(StripLeft(s));
  }

  /**
   A time scale section takes effect exactly when it stands on one line, with any blanks between its
   words. However else its words are spread over lines, the scale stays what it was.
   */
  lemma SectionLayout(
    c: Context, amount: string, unit: string, joined: bool, groups: seq<seq<string>>, raws: seq<string>)
    requires IsSection(amount, unit) && Flatten(groups) == SectionWords(amount, unit, joined)
    requires |raws| == |groups| && forall i :: 0 <= i < |raws| ==> Words(Strip(raws[i])) == groups[i]
    ensures RunFrom(c, ReadLines(raws)).scale ==
      if SectionWords(amount, unit, joined) in groups then NatValue(amount) * UnitFemtoseconds(unit).value else c.scale
  {
    hide Classify, SectionWords, Words, Strip;
    var ws, cs := SectionWords(amount, unit, joined), ReadLines(raws);
    forall i | 0 <= i < |groups|
      ensures cs[i].Timescale? <==> groups[i] == ws
      ensures groups[i] == ws ==> cs[i] == Timescale(NatValue(amount) * UnitFemtoseconds(unit).value)
    {
      var a := GroupWithin(groups, i);
      StripStart(raws[i]);
      GroupRead(amount, unit, joined, Strip(raws[i]), a);
    }
    AgreedScale(c, cs, NatValue(amount) * UnitFemtoseconds(unit).value);
    if ws in groups {
      var i :| 0 <= i < |groups| && groups[i] == ws;
      assert cs[i].Timescale?;
    }
  }

  // ---- text inside keyword sections ----

  /** The line is taken for a value change. */
  predicate IsChangeLine(line: string) { line != "" && line[0] != '$' && line[0] != '#' }

  /** The signal it is taken to change. */
  function Target(line: string): string
    requires IsChangeLine(line)
  {
    if line[0] == 'b' && ' ' in line then Strip(line[1..][FirstBlank(line[1..]) + 1..]) else Strip(line[1..])
  }

  lemma ChangeLineExact(line: string)
    ensures Classify(line).Change? <==> IsChangeLine(line)
    ensures IsChangeLine(line) ==> Classify(line).id == Target(line)
  {
    hide Words, ParseInt, Strip;
  }

  /** Text that is harmless wherever it stands: what starts with a dollar but declares and scales nothing. */
  predicate IsKeywordLine(line: string) {
    line == "" || (line[0] == '$' && !("$timescale" <= line) && !("$var" <= line))
  }

  /** Exactly which lines of text leave everything as it is. */
  lemma TextHarmless(c: Context, line: string)
    ensures IsKeywordLine(line) ==> Step(c, Classify(line)) == c
    ensures IsChangeLine(line) ==> (Step(c, Classify(line)) == c <==> Target(line) !in c.declarations)
    ensures line != "" && line[0] == '#' ==>
      (Step(c, Classify(line)) == c <==> ParseInt(line[1..]).None? || ParseInt(line[1..]).value * c.scale == c.now)
    ensures "$timescale" <= line ==> (Step(c, Classify(line)) == c <==>
        TimescaleLine(line) == Ignored || TimescaleLine(line) == Timescale(c.scale))
    ensures "$var" <= line ==> (Step(c, Classify(line)) == c <==> VarLine(line) == Ignored)
  {
    hide Words, ParseInt, Strip;
    if IsChangeLine(line) {
      ChangeLineExact(line);
      var e := Step(c, Classify(line));
      assert |e.events| == |c.events| + if Target(line) in c.declarations then 1 else 0;
    }
    if "$timescale" <= line { ScaleLineEffect(c, line); }
    if "$var" <= line { VarLineEffect(c, line); }
  }

  lemma ScaleLineEffect(c: Context, line: string)
    requires "$timescale" <= line
    ensures Classify(line) == TimescaleLine(line)
    ensures TimescaleLine(line) == Ignored || TimescaleLine(line).Timescale?
  {
    hide Words;
  }

  /** A declaration always leaves its mark: the signal gets a new generation. */
  lemma VarLineEffect(c: Context, line: string)
    requires "$var" <= line
    ensures Classify(line) == VarLine(line)
    ensures VarLine(line) != Ignored ==> Step(c, VarLine(line)) != c
  {
    hide Words;
    assert "$var"[1] == 'v' && "$timescale"[1] == 't';
    if VarLine(line) != Ignored {
      var e := Step(c, VarLine(line));
      assert e.declarations[VarLine(line).id].generation == NextGeneration(c, VarLine(line).id);
    }
  }

  /** The line changes a signal declared by then. */
  predicate Disturbs(c: Context, raw: string) {
    IsChangeLine(Strip(raw)) && Target(Strip(raw)) in c.declarations
  }

  lemma LineEvents(c: Context, raw: string)
    ensures c.events <= Step(c, ReadLine(raw)).events
    ensures |Step(c, ReadLine(raw)).events| == |c.events| + if Disturbs(c, raw) then 1 else 0
  {
    hide Strip, Classify;
    ChangeLineExact(Strip(raw));
  }

  lemma RunFromSnoc(c: Context, raws: seq<string>, raw: string)
    ensures RunFrom(c, ReadLines(raws + [raw])) == Step(RunFrom(c, ReadLines(raws)), ReadLine(raw))
  {
    hide ReadLine;
    assert ReadLines(raws + [raw])[..|raws|] == ReadLines(raws);
  }

  /** Lines add no event exactly when none of them changes a signal declared by then. */
  lemma {:induction false} LinesAddNothing(c: Context, raws: seq<string>)
    ensures c.events <= RunFrom(c, ReadLines(raws)).events
    ensures RunFrom(c, ReadLines(raws)).events == c.events
      <==> forall i :: 0 <= i < |raws| ==> !Disturbs(RunFrom(c, ReadLines(raws[..i])), raws[i])
  {
    hide ReadLine, Disturbs;
    if raws == [] {
      assert ReadLines(raws) == [];
    } else {
      var n := |raws| - 1;
      LinesAddNothing(c, raws[..n]);
      assert raws[..n] + [raws[n]] == raws;
      RunFromSnoc(c, raws[..n], raws[n]);
      LineEvents(RunFrom(c, ReadLines(raws[..n])), raws[n]);
      assert forall i :: 0 <= i < n ==> raws[..n][..i] == raws[..i];
    }
  }

  const TEXT_KEYWORDS := {"$comment", "$date", "$version", "$end"}

  lemma IdleWord(keyword: string)
    requires IsWord(keyword) && |keyword| >= 3 && keyword[0] == '$'
    requires keyword[1] != 't' && !(keyword[1] == 'v' && keyword[2] == 'a')
    ensures ReadLine(keyword) == Ignored
  {
    hide Words;
    WordTrimmed(keyword);
    assert "$timescale"[1] == 't' && "$var"[1] == 'v' && "$var"[2] == 'a';
  }

  lemma KeywordIsIdle(c: Context, keyword: string)
    requires keyword in TEXT_KEYWORDS
    ensures Step(c, ReadLine(keyword)) == c
  {
    hide ReadLine;
    IdleWord(keyword);
  }

  /**
   A section of text that is spread over lines is not passed over: its lines are read one by one,
   as if the keywords were not there.
   */
  lemma TextIsRead(c: Context, keyword: string, texts: seq<string>)
    requires keyword in TEXT_KEYWORDS
    ensures RunFrom(c, ReadLines([keyword] + texts + ["$end"])) == RunFrom(c, ReadLines(texts))
  {
    hide ReadLine;
    RunFromSnoc(c, [keyword] + texts, "$end");
    KeywordIsIdle(RunFrom(c, ReadLines([keyword] + texts)), "$end");
    FirstIsIdle(c, keyword, texts);
  }

  lemma {:induction false} FirstIsIdle(c: Context, keyword: string, texts: seq<string>)
    requires keyword in TEXT_KEYWORDS
    ensures RunFrom(c, ReadLines([keyword] + texts)) == RunFrom(c, ReadLines(texts))
  {
    hide ReadLine;
    if texts == [] {
      RunFromSnoc(c, [], keyword);
      assert [] + [keyword] == [keyword] + texts && ReadLines([]) == [];
      KeywordIsIdle(c, keyword);
    } else {
      var n := |texts| - 1;
      FirstIsIdle(c, keyword, texts[..n]);
      assert [keyword] + texts[..n] + [texts[n]] == [keyword] + texts && texts[..n] + [texts[n]] == texts;
      RunFromSnoc(c, [keyword] + texts[..n], texts[n]);
      RunFromSnoc(c, texts[..n], texts[n]);
    }
  }

  /** Text behind a keyword on its line is passed over. */
  lemma TextBehindKeyword(c: Context, keyword: string, text: string)
    requires keyword in TEXT_KEYWORDS
    ensures Step(c, Classify(keyword + " " + text)) == c
  {
    hide Words;
    var line := keyword + " " + text;
    assert line[0] == keyword[0] && line[1] == keyword[1] && line[2] == keyword[2];
    assert "$timescale"[1] == 't' && "$var"[1] == 'v' && "$var"[2] == 'a';
    TextHarmless(c, line);
  }

  /** What ends in a blank and a word is no word. */
  lemma NotOneWord(s: string)
    requires s != "" && !IsSpace(s[|s| - 1])
    ensures !SpaceFree(Strip(s + " $end"))
  {
    var all := s + " $end";
    StripLeftTail(s, " $end");
    var t := StripLeft(s);
    assert StripLeft(all) == t + " $end";
    assert (t + " $end")[|t| + 4] == 'd';
    assert StripRight(t + " $end") == t + " $end";
    assert (t + " $end")[|t|] == ' ';
  }

  lemma {:induction false} StripLeftTail(s: string, tail: string)
    requires s != "" && !IsSpace(s[|s| - 1])
    ensures StripLeft(s + tail) == StripLeft(s) + tail
  {
    if IsSpace(s[0]) {
      assert (s + tail)[1..] == s[1..] + tail;
      StripLeftTail(s[1..], tail);
    }
  }

  /**
   Text in front of the closing keyword, on its line, changes nothing: at most a signal called `$end`,
   and that only when the text is one character or a vector without blanks.
   */
  lemma TextBeforeEnd(raws: seq<string>, text: string)
    requires IsChangeLine(text) && !IsSpace(text[|text| - 1])
    ensures var c := Run(ReadLines(raws));
      Step(c, Classify(text + " $end")) != c
      <==> "$end" in c.declarations && (|text| == 1 || (text[0] == 'b' && ' ' !in text))
  {
    hide Strip, Run, FirstBlank;
    var c, line := Run(ReadLines(raws)), text + " $end";
    assert line[0] == text[0] && IsChangeLine(line);
    TextHarmless(c, line);
    DeclaredAreWords(raws);
    TargetBeforeEnd(text);
  }

  lemma TargetBeforeEnd(text: string)
    requires IsChangeLine(text) && !IsSpace(text[|text| - 1])
    ensures IsChangeLine(text + " $end")
    ensures |text| == 1 || (text[0] == 'b' && ' ' !in text) ==> Target(text + " $end") == "$end"
    ensures !(|text| == 1 || (text[0] == 'b' && ' ' !in text)) ==> !SpaceFree(Target(text + " $end"))
  {
    hide Strip;
    var line := text + " $end";
    EndWord();
    assert line[0] == text[0] && line[|text|] == ' ';
    if text[0] == 'b' {
      if ' ' in text {
        var n := FirstBlankIn(text[1..], " $end");
        assert line[1..] == text[1..] + " $end";
        NotOneWord(text[1..][n + 1..]);
        assert line[1..][n + 1..] == text[1..][n + 1..] + " $end";
      } else {
        FirstBlankAt(text[1..], "$end");
        assert line[1..] == text[1..] + " " + "$end";
        assert line[1..][|text| - 1 + 1..] == "$end";
      }
    } else if |text| == 1 {
      assert line[1..] == " $end";
    } else {
      NotOneWord(text[1..]);
      assert line[1..] == text[1..] + " $end";
    }
  }

  lemma EndWord()
    ensures Strip(" $end") == "$end" && Strip("$end") == "$end"
  {
    WordTrimmed("$end");
    StripPadded(" ", "$end", "");
    assert " " + "$end" + "" == " $end";
  }

  lemma {:induction false} FirstBlankIn(s: string, tail: string) returns (n: nat)
    requires ' ' in s && !IsSpace(s[|s| - 1])
    ensures n < |s| - 1 && FirstBlank(s + tail) == n
  {
    if s[0] == ' ' {
      n := 0;
    } else {
      assert s == [s[0]] + s[1..] && (s + tail)[1..] == s[1..] + tail;
      var k := FirstBlankIn(s[1..], tail);
      n := k + 1;
    }
  }

  /** A comment of one word, its first character in front of a declared identifier, is a value change. */
  lemma CommentBecomesChange(c: Context, level: char, id: string)
    requires !IsSpace(level) && level != '$' && level != '#' && IsWord(id) && id in c.declarations
    ensures |RunFrom(c, ReadLines(["$comment", [level] + id, "$end"])).events| == |c.events| + 1
  {
    hide RunFrom, Classify;
    var text := [level] + id;
    assert ["$comment"] + [text] + ["$end"] == ["$comment", text, "$end"];
    TextIsRead(c, "$comment", [text]);
    assert [] + [text] == [text];
    RunFromSnoc(c, [], text);
    NothingRead(c);
    WordTrimmed(text);
    WordTrimmed(id);
    assert text[1..] == id && ' ' !in text;
    LineEvents(c, text);
  }

  lemma NothingRead(c: Context)
    ensures RunFrom(c, ReadLines([])) == c
  {
  }

  // ---- dumps in whole nanoseconds ----

  ghost predicate WholeNanoseconds(t: int) { exists k: int :: t == Nanoseconds(k) }

  function Nanoseconds(k: int): int { 1_000_000 * k }

  /** The header and every later scale count in whole nanoseconds. */
  ghost predicate WholeScales(commands: seq<Command>) {
    forall i :: 0 <= i < |commands| && commands[i].Timescale? ==> WholeNanoseconds(commands[i].femtoseconds)
  }

  lemma WholeTicks(ticks: int, scale: int)
    requires WholeNanoseconds(scale)
    ensures WholeNanoseconds(ticks * scale)
  {
    var k: int :| scale == Nanoseconds(k);
    assert ticks * (1_000_000 * k) == 1_000_000 * (ticks * k);
    assert ticks * scale == Nanoseconds(ticks * k);
  }

  lemma {:induction false} TimesAreWhole(commands: seq<Command>)
    requires WholeScales(commands)
    ensures WholeNanoseconds(Run(commands).scale) && WholeNanoseconds(Run(commands).now)
    ensures forall i :: 0 <= i < |Run(commands).events| ==> WholeNanoseconds(Run(commands).events[i].time)
  {
    hide WholeNanoseconds;
    if commands == [] {
      WholeStart();
    } else {
      var n := |commands| - 1;
      TimesAreWhole(commands[..n]);
      if commands[n].Stamp? { WholeTicks(commands[n].ticks, Run(commands[..n]).scale); }
    }
  }

  lemma WholeStart()
    ensures WholeNanoseconds(1_000_000) && WholeNanoseconds(0)
  {
    assert 1_000_000 == Nanoseconds(1) && 0 == Nanoseconds(0);
  }
}
