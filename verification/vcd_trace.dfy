/**
 Reading a value-change dump (section 18.2 of IEEE 1364-2005): one line becomes one command,
 and a sequence of commands becomes the sequence of value changes it applies. Of the format's
 changes only scalars and vectors written with a lower-case `b` are applied, and of its keyword
 sections only those written on one line; module VcdForms says what becomes of the others.
 */
module VcdTrace {
  import opened Common
  import opened PythonText

  /** What one line of the file asks for. Times are in femtoseconds. */
  datatype Command =
    | Ignored
    | Timescale(femtoseconds: int)
    | Declare(id: string, name: string, width: int)
    | Stamp(ticks: int)
    | Change(id: string, value: string)

  function UnitFemtoseconds(lowered: string): Option<int> {
    if lowered == "fs" then Some(1)
    else if lowered == "ps" then Some(1_000)
    else if lowered == "ns" then Some(1_000_000)
    else if lowered == "us" then Some(1_000_000_000)
    else if lowered == "ms" then Some(1_000_000_000_000)
    else if lowered == "s" then Some(1_000_000_000_000_000)
    else None
  }

  function DigitsLength(s: string): (n: nat)
    ensures n <= |s|
  {
    if s == "" || !IsDigit(s[0]) then 0 else 1 + DigitsLength(s[1..])
  }

  function ScaleOf(amount: string, unit: string): Command {
    if amount != "" && AllDigits(amount) && UnitFemtoseconds(Lower(unit)).Some?
    then Timescale(NatValue(amount) * UnitFemtoseconds(Lower(unit)).value)
    else Ignored
  }

  /** `$timescale 1 ns $end` or `$timescale 1ns $end`; anything else leaves the scale alone. */
  function TimescaleLine(line: string): Command { TimescaleWords(Words(line)) }

  function TimescaleWords(ws: seq<string>): Command {
    if |ws| == 4 && ws[0] == "$timescale" && Lower(ws[3]) == "$end" then ScaleOf(ws[1], ws[2])
    else if |ws| == 3 && ws[0] == "$timescale" && Lower(ws[2]) == "$end" then
      var n := DigitsLength(ws[1]);
      ScaleOf(ws[1][..n], ws[1][n..])
    else Ignored
  }

  predicate EndsWith(s: string, suffix: string) {
    |suffix| <= |s| && s[|s| - |suffix|..] == suffix
  }

  /** `$var kind width id name ... $end` */
  function VarLine(line: string): Command {
    var ws := Words(line);
    if |ws| >= 6 && ws[0] == "$var" && AllDigits(ws[2]) && EndsWith(ws[|ws| - 1], "$end")
    then Declare(ws[3], ws[4], NatValue(ws[2]))
    else Ignored
  }

  /** Splits at the first blank, as `split(" ", 1)` does. */
  function FirstBlank(s: string): (n: nat)
    requires ' ' in s
    ensures n < |s| && s[n] == ' '
  {
    if s[0] == ' ' then 0 else 1 + FirstBlank(s[1..])
  }

  function ReadLine(raw: string): Command { Classify(Strip(raw)) }

  /** The branches of the line loop, in their order. */
  function Classify(line: string): Command {
    if line == "" then Ignored
    else if "$timescale" <= line then TimescaleLine(line)
    else if line[0] == '$' then if "$var" <= line then VarLine(line) else Ignored
    else if line[0] == '#' then
      match ParseInt(line[1..])
      case Some(t) => Stamp(t)
      case None => Ignored
    else if line[0] == 'b' && ' ' in line then
      var n := FirstBlank(line[1..]);
      Change(Strip(line[1..][n + 1..]), line[1..][..n])
    else Change(Strip(line[1..]), [line[0]])
  }

  function ReadLines(raws: seq<string>): (cs: seq<Command>)
    ensures |cs| == |raws|
    ensures forall i :: 0 <= i < |raws| ==> cs[i] == ReadLine(raws[i])
  {
    seq(|raws|, i requires 0 <= i < |raws| => ReadLine(raws[i]))
  }

  // ---- writing a dump, and reading it back ----

  /** The line forms that are applied: one-line headers, time stamps, scalars and lower-case vectors. */
  datatype Item =
    | Scale(amount: nat, unit: string, joined: bool)
    | Var(kind: string, width: nat, id: string, name: string, range: seq<string>)
    | At(time: nat)
    | Scalar(level: char, id: string)
    | Vector(bits: string, id: string)

  /** A scalar level must not look like a keyword or a time stamp; identifiers are words. */
  predicate Writable(item: Item) {
    match item
    case Scale(_, unit, _) => unit in {"fs", "ps", "ns", "us", "ms", "s"}
    case Var(kind, _, id, name, range) =>
      IsWord(kind) && IsWord(id) && IsWord(name) && forall i :: 0 <= i < |range| ==> IsWord(range[i])
    case At(_) => true
    case Scalar(level, id) => !IsSpace(level) && level != '$' && level != '#' && IsWord(id)
    case Vector(bits, id) => SpaceFree(bits) && IsWord(id)
  }

  function Render(item: Item): string {
    match item
    case Scale(amount, unit, joined) =>
      Spaced(["$timescale"] + (if joined then [Decimal(amount) + unit] else [Decimal(amount), unit]) + ["$end"])
    case Var(kind, width, id, name, range) => Spaced(["$var", kind, Decimal(width), id, name] + range + ["$end"])
    case At(time) => "#" + Decimal(time)
    case Scalar(level, id) => [level] + id
    case Vector(bits, id) => "b" + bits + " " + id
  }

  function Meaning(item: Item): Command
    requires Writable(item)
  {
    match item
    case Scale(amount, unit, _) => Timescale(amount * UnitFemtoseconds(unit).GetOr(0))
    case Var(_, width, id, name, _) => Declare(id, name, width)
    case At(time) => Stamp(time)
    case Scalar(level, id) => Change(id, [level])
    case Vector(bits, id) => Change(id, bits)
  }

  lemma WordTrimmed(w: string)
    requires IsWord(w)
    ensures Trimmed(w) && Strip(w) == w
  {
    StripPadded("", w, "");
    assert "" + w + "" == w;
  }

  lemma ScaleWords(amount: nat, unit: string)
    requires Writable(Scale(amount, unit, false))
    ensures Lower("$end") == "$end"
    ensures ScaleOf(Decimal(amount), unit) == Meaning(Scale(amount, unit, false))
  {
    DecimalRoundTrip(amount);
    LowerFixed("$end");
    LowerFixed(unit);
  }

  /** The digits in front of a unit end where the unit starts. */
  lemma {:induction false} DigitsEnd(digits: string, rest: string)
    requires AllDigits(digits) && rest != "" && !IsDigit(rest[0])
    ensures DigitsLength(digits + rest) == |digits|
  {
    if digits == "" {
      assert digits + rest == rest;
    } else {
      assert (digits + rest)[1..] == digits[1..] + rest;
      DigitsEnd(digits[1..], rest);
    }
  }

  lemma TimescaleReads(ws: seq<string>)
    requires ws != [] && ws[0] == "$timescale" && forall i :: 0 <= i < |ws| ==> IsWord(ws[i])
    ensures Trimmed(Spaced(ws)) && Classify(Spaced(ws)) == TimescaleWords(ws)
  {
    hide TimescaleWords, Words;
    SpacedTrimmed(ws);
    WordsSpaced(ws);
  }

  lemma UnitIsWord(unit: string)
    requires UnitFemtoseconds(unit).Some?
    ensures IsWord(unit) && !IsDigit(unit[0])
  {
  }

  lemma ScaleReadsBack(amount: nat, unit: string, joined: bool)
    requires Writable(Scale(amount, unit, joined))
    ensures var s := Render(Scale(amount, unit, joined));
      Trimmed(s) && Classify(s) == Meaning(Scale(amount, unit, joined))
  {
    hide Spaced, Classify, ScaleOf, Decimal, SpaceFree, AllDigits, TimescaleWords;
    DecimalRoundTrip(amount);
    UnitIsWord(unit);
    ScaleWords(amount, unit);
    ScaleForms(Decimal(amount), unit);
    TimescaleReads(["$timescale"] + (if joined then [Decimal(amount) + unit] else [Decimal(amount), unit]) + ["$end"]);
  }

  /** The joined and the separate form say the same. */
  lemma ScaleForms(digits: string, unit: string)
    requires digits != "" && AllDigits(digits) && IsWord(unit) && !IsDigit(unit[0])
    ensures var a, b := ["$timescale"] + [digits, unit] + ["$end"], ["$timescale"] + [digits + unit] + ["$end"];
      && (forall i :: 0 <= i < |a| ==> IsWord(a[i])) && (forall i :: 0 <= i < |b| ==> IsWord(b[i]))
      && TimescaleWords(a) == TimescaleWords(b) == ScaleOf(digits, unit)
  {
    hide ScaleOf;
    LowerFixed("$end");
    DigitsEnd(digits, unit);
    assert (digits + unit)[..|digits|] == digits && (digits + unit)[|digits|..] == unit;
  }

  lemma VarReadsBack(kind: string, width: nat, id: string, name: string, range: seq<string>)
    requires Writable(Var(kind, width, id, name, range))
    ensures var s := Render(Var(kind, width, id, name, range)); Trimmed(s) && Classify(s) == Declare(id, name, width)
  {
    DecimalRoundTrip(width);
    var ws := ["$var", kind, Decimal(width), id, name] + range + ["$end"];
    assert forall i :: 0 <= i < |ws| ==> IsWord(ws[i]);
    SpacedTrimmed(ws);
    WordsSpaced(ws);
    assert Spaced(ws) == "$var" + " " + Spaced(ws[1..]);
    assert Spaced(ws)[1] == 'v' && "$timescale"[1] == 't';
  }

  lemma StampReadsBack(time: nat)
    ensures var s := Render(At(time)); Trimmed(s) && Classify(s) == Stamp(time)
  {
    DecimalRoundTrip(time);
    ParseDecimal(time);
    assert Render(At(time))[1..] == Decimal(time);
  }

  lemma ScalarReadsBack(level: char, id: string)
    requires Writable(Scalar(level, id))
    ensures var s := Render(Scalar(level, id)); Trimmed(s) && Classify(s) == Change(id, [level])
  {
    var s := Render(Scalar(level, id));
    WordTrimmed(id);
    assert s[1..] == id && s[0] == level;
    assert ' ' !in s;
  }

  lemma {:induction false} FirstBlankAt(bits: string, rest: string)
    requires ' ' !in bits
    ensures FirstBlank(bits + " " + rest) == |bits|
  {
    if bits == "" {
      assert bits + " " + rest == " " + rest;
    } else {
      assert (bits + " " + rest)[1..] == bits[1..] + " " + rest;
      FirstBlankAt(bits[1..], rest);
    }
  }

  lemma VectorReadsBack(bits: string, id: string)
    requires Writable(Vector(bits, id))
    ensures var s := Render(Vector(bits, id)); Trimmed(s) && Classify(s) == Change(id, bits)
  {
    var s := Render(Vector(bits, id));
    WordTrimmed(id);
    assert s[|bits| + 1] == ' ' && s[0] == 'b' && s[|s| - 1] == id[|id| - 1];
    var rest := s[1..];
    assert rest == bits + " " + id;
    FirstBlankAt(bits, id);
    assert rest[..|bits|] == bits && rest[|bits| + 1..] == id;
  }

  lemma ItemReadsBack(item: Item)
    requires Writable(item)
    ensures Trimmed(Render(item)) && Classify(Render(item)) == Meaning(item)
  {
    match item
    case Scale(amount, unit, joined) => ScaleReadsBack(amount, unit, joined);
    case Var(kind, width, id, name, range) => VarReadsBack(kind, width, id, name, range);
    case At(time) => StampReadsBack(time);
    case Scalar(level, id) => ScalarReadsBack(level, id);
    case Vector(bits, id) => VectorReadsBack(bits, id);
  }

  /**
   Every written line reads back as exactly what it says, whatever whitespace surrounds it: the
   leading characters never confuse keyword, time stamp, scalar and vector lines.
   */
  lemma LineReadsBack(before: string, item: Item, after: string)
    requires Writable(item) && AllSpace(before) && AllSpace(after)
    ensures ReadLine(before + Render(item) + after) == Meaning(item)
  {
    ItemReadsBack(item);
    StripPadded(before, Render(item), after);
  }

  function RenderAll(items: seq<Item>): seq<string> {
    seq(|items|, i requires 0 <= i < |items| => Render(items[i]) + "\n")
  }

  /** A rendered dump reads back as the same sequence of commands, line for line. */
  lemma DumpReadsBack(items: seq<Item>)
    requires forall i :: 0 <= i < |items| ==> Writable(items[i])
    ensures var cs := ReadLines(RenderAll(items));
      |cs| == |items| && forall i :: 0 <= i < |items| ==> cs[i] == Meaning(items[i])
  {
    forall i | 0 <= i < |items| ensures ReadLine(RenderAll(items)[i]) == Meaning(items[i]) {
      LineReadsBack("", items[i], "\n");
      assert "" + Render(items[i]) + "\n" == Render(items[i]) + "\n";
    }
  }

  // ---- from commands to the value changes they apply ----

  /** A declaration in force. Re-declaring an identifier starts a new generation of it. */
  datatype Declaration = Declaration(name: string, width: int, generation: nat)

  datatype Event = Event(id: string, generation: nat, name: string, value: string, time: int)

  datatype Context = Context(
    scale: int,
    now: int,
    declarations: map<string, Declaration>,
    order: seq<string>,
    events: seq<Event>)

  const START := Context(1_000_000, 0, map[], [], [])

  function NextGeneration(c: Context, id: string): nat {
    if id in c.declarations then c.declarations[id].generation + 1 else 0
  }

  function Step(c: Context, command: Command): Context {
    match command
    case Ignored => c
    case Timescale(fs) => c.(scale := fs)
    case Declare(id, name, width) =>
      c.(declarations := c.declarations[id := Declaration(name, width, NextGeneration(c, id))],
         order := if id in c.declarations then c.order else c.order + [id])
    case Stamp(ticks) => c.(now := ticks * c.scale)
    case Change(id, value) =>
      if id !in c.declarations then c
      else
        var d := c.declarations[id];
        c.(events := c.events + [Event(id, d.generation, d.name, value, c.now)])
  }

  function Run(commands: seq<Command>): Context {
    if commands == [] then START
    else Step(Run(commands[..|commands| - 1]), commands[|commands| - 1])
  }

  lemma RunSnoc(commands: seq<Command>, command: Command)
    ensures Run(commands + [command]) == Step(Run(commands), command)
  {
    assert (commands + [command])[..|commands|] == commands;
  }

  /** Events name declared identifiers; those of the current generation carry the current name. */
  ghost predicate WellFormed(c: Context) {
    && (forall i :: 0 <= i < |c.events| ==>
         var e := c.events[i];
         && e.id in c.declarations
         && e.generation <= c.declarations[e.id].generation
         && (e.generation == c.declarations[e.id].generation ==> e.name == c.declarations[e.id].name))
    && (forall id :: id in c.order <==> id in c.declarations)
  }

  lemma {:induction false} RunWellFormed(commands: seq<Command>)
    ensures WellFormed(Run(commands))
  {
    if commands != [] {
      RunWellFormed(commands[..|commands| - 1]);
    }
  }

  // ---- a written trace applies exactly its samples ----

  /** One value change and the time stamp written before it. */
  datatype Sample = Sample(time: nat, change: Item)

  predicate IsSample(s: Sample) { (s.change.Scalar? || s.change.Vector?) && Writable(s.change) }

  function Value(s: Sample): string
    requires IsSample(s)
  {
    if s.change.Scalar? then [s.change.level] else s.change.bits
  }

  /** The change writes a signal that has been declared. */
  predicate Declared(c: Context, s: Sample) { IsSample(s) && s.change.id in c.declarations }

  function EventOf(c: Context, s: Sample): Event
    requires Declared(c, s)
  {
    var d := c.declarations[s.change.id];
    Event(s.change.id, d.generation, d.name, Value(s), s.time * c.scale)
  }

  /** The lines after the header: a time stamp and a change for each sample. */
  function Body(samples: seq<Sample>): seq<Item> {
    if samples == [] then []
    else Body(samples[..|samples| - 1]) + [At(samples[|samples| - 1].time), samples[|samples| - 1].change]
  }

  function Applied(c: Context, samples: seq<Sample>): seq<Event>
    requires forall i :: 0 <= i < |samples| ==> Declared(c, samples[i])
  {
    if samples == [] then []
    else Applied(c, samples[..|samples| - 1]) + [EventOf(c, samples[|samples| - 1])]
  }

  function Meanings(items: seq<Item>): (r: seq<Command>)
    requires forall i :: 0 <= i < |items| ==> Writable(items[i])
    ensures |r| == |items| && forall i :: 0 <= i < |items| ==> r[i] == Meaning(items[i])
  {
    seq(|items|, i requires 0 <= i < |items| => Meaning(items[i]))
  }

  lemma {:induction false} BodyWritable(samples: seq<Sample>)
    requires forall i :: 0 <= i < |samples| ==> IsSample(samples[i])
    ensures forall i :: 0 <= i < |Body(samples)| ==> Writable(Body(samples)[i])
  {
    if samples != [] { BodyWritable(samples[..|samples| - 1]); }
  }

  /** The context differs in its clock and in the events added. */
  ghost predicate Adds(c: Context, e: Context, events: seq<Event>) {
    e == c.(now := e.now, events := c.events + events)
  }

  lemma TwoMore(before: seq<Command>, c: Context, added: seq<Event>, s: Sample)
    requires Adds(c, Run(before), added) && Declared(c, s)
    ensures Adds(c, Run(before + [Stamp(s.time), Meaning(s.change)]), added + [EventOf(c, s)])
  {
    RunSnoc(before, Stamp(s.time));
    RunSnoc(before + [Stamp(s.time)], Meaning(s.change));
    assert before + [Stamp(s.time)] + [Meaning(s.change)] == before + [Stamp(s.time), Meaning(s.change)];
    assert c.events + added + [EventOf(c, s)] == c.events + (added + [EventOf(c, s)]);
  }

  lemma {:induction false} BodyApplies(header: seq<Command>, samples: seq<Sample>)
    requires forall i :: 0 <= i < |samples| ==> Declared(Run(header), samples[i])
    ensures forall i :: 0 <= i < |Body(samples)| ==> Writable(Body(samples)[i])
    ensures Adds(Run(header), Run(header + Meanings(Body(samples))), Applied(Run(header), samples))
  {
    BodyWritable(samples);
    var c := Run(header);
    if samples == [] {
      assert header + Meanings([]) == header && c.events + [] == c.events;
    } else {
      var n := |samples| - 1;
      var s := samples[n];
      BodyApplies(header, samples[..n]);
      var front := header + Meanings(Body(samples[..n]));
      TwoMore(front, c, Applied(c, samples[..n]), s);
      assert Meanings(Body(samples)) == Meanings(Body(samples[..n])) + [Stamp(s.time), Meaning(s.change)];
      assert header + Meanings(Body(samples)) == front + [Stamp(s.time), Meaning(s.change)];
    }
  }

  lemma TwoPartsReadBack(a: seq<Item>, b: seq<Item>)
    requires forall i :: 0 <= i < |a| ==> Writable(a[i])
    requires forall i :: 0 <= i < |b| ==> Writable(b[i])
    ensures ReadLines(RenderAll(a + b)) == Meanings(a) + Meanings(b)
  {
    DumpReadsBack(a + b);
    var cs := ReadLines(RenderAll(a + b));
    forall i | 0 <= i < |cs| ensures cs[i] == (Meanings(a) + Meanings(b))[i] {
      assert cs[i] == Meaning((a + b)[i]);
    }
  }

  predicate IsHeader(items: seq<Item>) {
    forall i :: 0 <= i < |items| ==> Writable(items[i]) && (items[i].Var? || items[i].Scale?)
  }

  /**
   Writing a header and any samples of its signals as a dump, and reading the lines back, applies
   exactly those samples: same order, same identifiers and values, each at its own time.
   */
  lemma TraceReadsBack(header: seq<Item>, samples: seq<Sample>)
    requires IsHeader(header)
    requires forall i :: 0 <= i < |samples| ==> Declared(Run(Meanings(header)), samples[i])
    ensures Run(ReadLines(RenderAll(header + Body(samples)))).events == Applied(Run(Meanings(header)), samples)
  {
    var c := Run(Meanings(header));
    BodyApplies(Meanings(header), samples);
    TwoPartsReadBack(header, Body(samples));
    HeaderIsSilent(Meanings(header));
    assert [] + Applied(c, samples) == Applied(c, samples);
  }

  lemma {:induction false} HeaderIsSilent(commands: seq<Command>)
    requires forall i :: 0 <= i < |commands| ==> commands[i].Declare? || commands[i].Timescale?
    ensures Run(commands).events == []
  {
    if commands != [] { HeaderIsSilent(commands[..|commands| - 1]); }
  }

  lemma BodySnoc(samples: seq<Sample>)
    requires samples != [] && forall i :: 0 <= i < |samples| ==> IsSample(samples[i])
    ensures var n := |samples| - 1;
      && IsSample(samples[n])
      && (forall i :: 0 <= i < |Body(samples)| ==> Writable(Body(samples)[i]))
      && (forall i :: 0 <= i < |Body(samples[..n])| ==> Writable(Body(samples[..n])[i]))
      && Meanings(Body(samples)) == Meanings(Body(samples[..n])) + [Stamp(samples[n].time), Meaning(samples[n].change)]
  {
    BodyWritable(samples);
    BodyWritable(samples[..|samples| - 1]);
  }

  lemma SampleChanges(c: Context, s: Sample)
    requires IsSample(s)
    ensures Step(c, Meaning(s.change)).now == c.now
  {
  }

  lemma {:induction false} BodyClock(header: seq<Command>, samples: seq<Sample>)
    requires forall i :: 0 <= i < |samples| ==> Declared(Run(header), samples[i])
    requires samples != []
    ensures forall i :: 0 <= i < |Body(samples)| ==> Writable(Body(samples)[i])
    ensures Run(header + Meanings(Body(samples))).now == samples[|samples| - 1].time * Run(header).scale
  {
    hide Run, Meaning, Body, Meanings, Applied, Writable;
    BodyWritable(samples);
    var n := |samples| - 1;
    var s := samples[n];
    BodyApplies(header, samples[..n]);
    var front := header + Meanings(Body(samples[..n]));
    RunSnoc(front, Stamp(s.time));
    RunSnoc(front + [Stamp(s.time)], Meaning(s.change));
    BodySnoc(samples);
    SampleChanges(Run(front + [Stamp(s.time)]), s);
    assert header + Meanings(Body(samples)) == front + [Stamp(s.time)] + [Meaning(s.change)];
  }

  /** The clock of a written trace stands at its last sample, in the unit of its header. */
  lemma ClockReadsBack(header: seq<Item>, samples: seq<Sample>)
    requires IsHeader(header) && samples != []
    requires forall i :: 0 <= i < |samples| ==> Declared(Run(Meanings(header)), samples[i])
    ensures Run(ReadLines(RenderAll(header + Body(samples)))).now
      == samples[|samples| - 1].time * Run(Meanings(header)).scale
  {
    BodyClock(Meanings(header), samples);
    TwoPartsReadBack(header, Body(samples));
  }

  /** Each unit is a thousand of the next smaller one, down to femtoseconds; dumps start in nanoseconds. */
  lemma UnitLadder()
    ensures Fs("fs") == 1 && Fs("ps") == 1_000 * Fs("fs") && Fs("ns") == 1_000 * Fs("ps")
    ensures Fs("us") == 1_000 * Fs("ns") && Fs("ms") == 1_000 * Fs("us") && Fs("s") == 1_000 * Fs("ms")
    ensures forall u :: UnitFemtoseconds(u).Some? <==> u in {"s", "ms", "us", "ns", "ps", "fs"}
    ensures Run([]).scale == Fs("ns")
  {
  }

  function Fs(unit: string): int { UnitFemtoseconds(unit).GetOr(0) }
}
