/** The one-pass summariser of a value-change dump, with the dictionaries it keeps. */
module VcdSummary {
  import opened Common
  import opened VcdTrace
  import opened VcdWindow
  import TextOrder
  import Sorting

  datatype Signal = Signal(name: string, width: int)

  datatype Entry = Entry(
    name: string,
    width: int,
    toggles: nat,
    lastValue: Option<string>,
    valueAtStart: Option<string>,
    valueAtEnd: Option<string>)

  datatype Highlight = Highlight(
    timeNs: int, signal: string, value: Option<string>, toggles: Option<nat>, category: string)

  datatype Summary = Summary(
    signals: seq<Entry>, endTimeNs: int, traceEndNs: int, highlights: seq<Highlight>)

  datatype ParseError = StartAfterEnd | NoSignals

  /** Python's `a or b` on optional text: the empty string counts as absent. */
  function OrElse(a: Option<string>, b: Option<string>): Option<string> {
    if a.Some? && a.value != "" then a else b
  }

  /** `int(x)` truncates toward zero. */
  function WholeNs(femtoseconds: int): int {
    if femtoseconds >= 0 then femtoseconds / 1_000_000 else -((-femtoseconds) / 1_000_000)
  }

  /** The whole nanoseconds between zero and the time, on its side of zero. */
  lemma WholeNsMeaning(t: int)
    ensures t >= 0 ==> WholeNs(t) * 1_000_000 <= t < (WholeNs(t) + 1) * 1_000_000
    ensures t <= 0 ==> (WholeNs(t) - 1) * 1_000_000 < t <= WholeNs(t) * 1_000_000
  {
  }

  function Flatten(start: Option<Option<string>>): Option<string> {
    if start.Some? then start.value else None
  }

  function Names(declarations: map<string, Declaration>): set<string> {
    set id | id in declarations :: declarations[id].name
  }

  /** Width of the first declared identifier that carries the name. */
  function WidthOf(c: Context, ids: seq<string>, name: string): int
    requires forall id :: id in ids ==> id in c.declarations
  {
    if ids == [] then 0
    else if c.declarations[ids[0]].name == name then c.declarations[ids[0]].width
    else WidthOf(c, ids[1..], name)
  }

  /** The names met along the identifiers, each with the width it was first met with. */
  function WidthsOf(c: Context, ids: seq<string>): map<string, int>
    requires forall id :: id in ids ==> id in c.declarations
  {
    if ids == [] then map[]
    else
      var front, d := WidthsOf(c, ids[..|ids| - 1]), c.declarations[ids[|ids| - 1]];
      if d.name in front then front else front[d.name := d.width]
  }

  lemma {:induction false} WidthsMeaning(c: Context, ids: seq<string>)
    requires forall id :: id in ids ==> id in c.declarations
    ensures forall n :: n in WidthsOf(c, ids) <==> exists k :: 0 <= k < |ids| && c.declarations[ids[k]].name == n
    ensures forall n :: n in WidthsOf(c, ids) ==> WidthsOf(c, ids)[n] == WidthOf(c, ids, n)
  {
    if ids != [] {
      var n := |ids| - 1;
      WidthsMeaning(c, ids[..n]);
      assert ids == ids[..n] + [ids[n]];
      forall m ensures WidthOf(c, ids, m) ==
        if exists k :: 0 <= k < n && c.declarations[ids[..n][k]].name == m then WidthOf(c, ids[..n], m)
        else WidthOf(c, [ids[n]], m)
      {
        WidthAppend(c, ids[..n], ids[n], m);
      }
    }
  }

  lemma AllNamesListed(c: Context)
    requires WellFormed(c)
    ensures forall n ::
      n in Names(c.declarations) <==> exists k :: 0 <= k < |c.order| && c.declarations[c.order[k]].name == n
  {
    forall n | n in Names(c.declarations)
      ensures exists k :: 0 <= k < |c.order| && c.declarations[c.order[k]].name == n
    {
      var id :| id in c.declarations && c.declarations[id].name == n;
      assert id in c.order;
      var k :| 0 <= k < |c.order| && c.order[k] == id;
    }
    forall k | 0 <= k < |c.order| ensures c.declarations[c.order[k]].name in Names(c.declarations) {
      assert c.order[k] in c.order;
    }
  }

  /** The merge keeps every name in force, with the width of its first declaration. */
  lemma NamesAndWidths(c: Context)
    requires WellFormed(c)
    ensures WidthsOf(c, c.order).Keys == Names(c.declarations)
    ensures forall n :: n in WidthsOf(c, c.order) ==> WidthsOf(c, c.order)[n] == WidthOf(c, c.order, n)
  {
    WidthsMeaning(c, c.order);
    AllNamesListed(c);
  }

  /** What the report must say about one name, in terms of the whole trace. */
  ghost function EntryFor(c: Context, w: Window, name: string): Entry
    requires WellFormed(c)
  {
    Entry(
      name,
      WidthOf(c, c.order, name),
      ToggleCount(c.events, w, name),
      OrElse(LastInside(c.events, w, name), LastEarly(c.events, w, name)),
      Flatten(Opening(c.events, w, name)),
      LastInside(c.events, w, name))
  }

  ghost predicate Reports(entries: seq<Entry>, c: Context, w: Window)
    requires WellFormed(c)
  {
    var names := TextOrder.Sorted(Names(c.declarations));
    && |entries| == |names|
    && forall i :: 0 <= i < |names| ==> entries[i] == EntryFor(c, w, names[i])
  }

  // ---- highlights ----

  predicate BusierFirst(a: Entry, b: Entry) { a.toggles >= b.toggles }

  /** `max(..., key=toggles)`: the first of the busiest. */
  function Busiest(signals: seq<Entry>): Entry
    requires signals != []
  {
    if |signals| == 1 then signals[0]
    else
      var rest := Busiest(signals[1..]);
      if signals[0].toggles >= rest.toggles then signals[0] else rest
  }

  function Highlights(signals: seq<Entry>, tStart: int, tEnd: int): seq<Highlight> {
    var top := Take(Sorting.Sort(signals, BusierFirst), 3);
    var activity := seq(|top|, i requires 0 <= i < |top| =>
      Highlight(
        tEnd, top[i].name, OrElse(top[i].valueAtEnd, top[i].lastValue), Some(top[i].toggles), "toggle_activity"));
    if signals == [] then []
    else
      var busiest := Busiest(signals);
      Take([Highlight(tStart, busiest.name, busiest.valueAtStart, None, "window_boundary")] + activity, 5)
  }

  lemma {:induction false} BusiestSortsFirst(signals: seq<Entry>)
    requires signals != []
    ensures Sorting.Sort(signals, BusierFirst) != []
    ensures Sorting.Sort(signals, BusierFirst)[0] == Busiest(signals)
  {
    if |signals| > 1 { BusiestSortsFirst(signals[1..]); }
  }

  /**
   The boundary highlight is about the first activity highlight, and no signal left out is busier
   than a listed one.
   */
  lemma HighlightsMeaning(signals: seq<Entry>, tStart: int, tEnd: int)
    requires signals != []
    ensures var hs := Highlights(signals, tStart, tEnd);
      && |hs| == 1 + Min(3, |signals|)
      && hs[0].signal == hs[1].signal == Busiest(signals).name
      && hs[0].value == Busiest(signals).valueAtStart
      && hs[0].timeNs == tStart && hs[0].category == "window_boundary"
      && forall i :: 1 <= i < |hs| ==> hs[i].timeNs == tEnd && hs[i].category == "toggle_activity"
    ensures var ranked := Sorting.Sort(signals, BusierFirst);
      && multiset(ranked) == multiset(signals)
      && (forall i :: 0 <= i < Min(3, |ranked|) ==>
            Highlights(signals, tStart, tEnd)[1 + i].signal == ranked[i].name
            && Highlights(signals, tStart, tEnd)[1 + i].toggles == Some(ranked[i].toggles)
            && (ranked[i].valueAtEnd.Some? && ranked[i].valueAtEnd.value != "" ==>
                  Highlights(signals, tStart, tEnd)[1 + i].value == ranked[i].valueAtEnd))
      && forall i, j :: 0 <= i < 3 <= j < |ranked| ==> ranked[j].toggles <= ranked[i].toggles
  {
    BusiestSortsFirst(signals);
    Sorting.SortPermutes(signals, BusierFirst);
    Sorting.SortSorted(signals, BusierFirst);
  }

  // ---- the pass ----

  /** What the four dictionaries keyed by name say about one name. */
  ghost predicate Matches(
    preWindow: map<string, string>, startValues: map<string, Option<string>>,
    endValues: map<string, string>, toggles: map<string, nat>,
    es: seq<Event>, w: Window, n: string)
  {
    && Lookup(preWindow, n) == LastEarly(es, w, n)
    && Lookup(startValues, n) == Opening(es, w, n)
    && Lookup(endValues, n) == LastInside(es, w, n)
    && Lookup(toggles, n).GetOr(0) == ToggleCount(es, w, n)
  }

  class SummaryPass {
    const window: Window
    var signals: map<string, Signal>
    var order: seq<string>
    var scale: int
    var now: int
    var preWindow: map<string, string>
    var running: map<string, Option<string>>
    var startValues: map<string, Option<string>>
    var endValues: map<string, string>
    var toggles: map<string, nat>

    constructor (window: Window)
      ensures this.window == window && Agrees(START)
    {
      this.window := window;
      signals, order, scale, now := map[], [], 1_000_000, 0;
      preWindow, running, startValues, endValues, toggles := map[], map[], map[], map[], map[];
    }

    /** The dictionaries say about the trace so far what the whole-trace functions say. */
    ghost predicate Agrees(c: Context)
      reads this
    {
      && signals.Keys == c.declarations.Keys == running.Keys
      && (forall id :: id in signals ==>
            var d := c.declarations[id];
            && signals[id] == Signal(d.name, d.width)
            && running[id] == Held(c.events, window, id, d.generation))
      && order == c.order && scale == c.scale && now == c.now
      && forall n :: Matches(preWindow, startValues, endValues, toggles, c.events, window, n)
    }

    method Declare(id: string, name: string, width: int, ghost c: Context)
      requires WellFormed(c) && Agrees(c)
      modifies this
      ensures Agrees(Step(c, VcdTrace.Declare(id, name, width)))
    {
      hide Held, LastEarly, LastInside, Opening, ToggleCount;
      if id !in signals {
        order := order + [id];
      }
      signals := signals[id := Signal(name, width)];
      running := running[id := None];
      NothingHeld(c.events, window, id, NextGeneration(c, id));
    }

    method ApplyValue(id: string, value: string, ghost c: Context)
      requires WellFormed(c) && Agrees(c)
      modifies this`preWindow, this`running, this`startValues, this`endValues, this`toggles
      ensures Agrees(Step(c, Change(id, value)))
    {
      hide Held, LastEarly, LastInside, Opening, ToggleCount, Matches;
      if id !in signals {
        return;
      }
      ghost var e := Event(id, c.declarations[id].generation, signals[id].name, value, now);
      ghost var prev := running[id];
      ghost var pre, start, end, count := preWindow, startValues, endValues, toggles;
      ghost var after := Step(c, Change(id, value));
      assert after == c.(events := c.events + [e]);
      Record(id, value, c);
      forall n ensures Matches(preWindow, startValues, endValues, toggles, after.events, window, n) {
        assert Matches(pre, start, end, count, c.events, window, n);
        MatchesAfter(pre, start, end, count, c.events, e, window, n, prev);
      }
      forall k | k in signals ensures running[k] == Held(after.events, window, k, c.declarations[k].generation) {
        OneMoreHeld(c.events, e, window, k, c.declarations[k].generation);
      }
    }

    /** `apply_value` for a declared identifier, case by case. */
    method Record(id: string, value: string, ghost c: Context)
      requires WellFormed(c) && Agrees(c) && id in signals
      modifies this`preWindow, this`running, this`startValues, this`endValues, this`toggles
      ensures var name, prev := signals[id].name, old(running)[id];
        && preWindow == (if window.Early(now) then old(preWindow)[name := value] else old(preWindow))
        && running == (if window.Late(now) then old(running) else old(running)[id := Some(value)])
        && endValues == (if window.Inside(now) then old(endValues)[name := value] else old(endValues))
        && startValues == (if window.Inside(now) && name !in old(startValues)
                           then old(startValues)[name := Lookup(old(preWindow), name)] else old(startValues))
        && toggles == (if window.Inside(now) && prev.Some? && prev.value != value
                       then old(toggles)[name := Lookup(old(toggles), name).GetOr(0) + 1] else old(toggles))
    {
      hide Held, LastEarly, LastInside, Opening, ToggleCount;
      var prev := running[id];
      var name := signals[id].name;
      if window.Early(now) {
        preWindow := preWindow[name := value];
        running := running[id := Some(value)];
        return;
      }
      if window.Late(now) {
        return;
      }
      if name !in startValues {
        assert Matches(preWindow, startValues, endValues, toggles, c.events, window, name);
        if name !in preWindow && prev.Some? {
          HeldLeavesTrace(c.events, window, id, c.declarations[id].generation, name);
          assert false;
        }
        startValues := startValues[name := if name in preWindow then Some(preWindow[name]) else prev];
      }
      if prev.Some? && prev.value != value {
        toggles := toggles[name := Lookup(toggles, name).GetOr(0) + 1];
      }
      running := running[id := Some(value)];
      endValues := endValues[name := value];
    }

    method Feed(raw: string, ghost done: seq<Command>)
      requires Agrees(Run(done))
      modifies this
      ensures Agrees(Run(done + [ReadLine(raw)]))
    {
      var command := ReadLine(raw);
      RunWellFormed(done);
      RunSnoc(done, command);
      match command {
        case Ignored =>
        case Timescale(fs) => scale := fs;
        case Declare(id, name, width) => Declare(id, name, width, Run(done));
        case Stamp(ticks) => now := ticks * scale;
        case Change(id, value) => ApplyValue(id, value, Run(done));
      }
    }

    /** The merge by name: the first declaration of a name supplies its width. */
    method Merged(ghost c: Context) returns (widths: map<string, int>)
      requires WellFormed(c) && Agrees(c)
      ensures widths == WidthsOf(c, c.order)
    {
      widths := map[];
      for i := 0 to |order|
        invariant widths == WidthsOf(c, order[..i])
      {
        assert order[..i + 1][..i] == order[..i];
        var entry := signals[order[i]];
        if entry.name !in widths {
          widths := widths[entry.name := entry.width];
        }
      }
      assert order[..|order|] == order;
    }

    method EntryNamed(n: string, width: int, ghost c: Context) returns (e: Entry)
      requires WellFormed(c) && Agrees(c) && width == WidthOf(c, c.order, n)
      ensures e == EntryFor(c, window, n)
    {
      hide WidthOf, ToggleCount, LastInside, LastEarly, Opening, Held;
      assert Matches(preWindow, startValues, endValues, toggles, c.events, window, n);
      e := Entry(
        n,
        width,
        Lookup(toggles, n).GetOr(0),
        OrElse(Lookup(endValues, n), Lookup(preWindow, n)),
        Flatten(Lookup(startValues, n)),
        Lookup(endValues, n));
    }

    method Entries(ghost c: Context) returns (entries: seq<Entry>)
      requires WellFormed(c) && Agrees(c)
      ensures Reports(entries, c, window)
    {
      hide WidthsOf, WidthOf, EntryFor, Agrees, TextOrder.Sorted, TextOrder.Lt;
      var widths := Merged(c);
      NamesAndWidths(c);
      var names := TextOrder.Sorted(widths.Keys);
      entries := [];
      for i := 0 to |names|
        invariant |entries| == i
        invariant forall k :: 0 <= k < i ==> entries[k] == EntryFor(c, window, names[k])
      {
        assert names[i] in names;
        var e := EntryNamed(names[i], widths[names[i]], c);
        entries := entries + [e];
      }
    }
  }

  /** How one more change moves each whole-trace function. */
  lemma OneMoreChange(es: seq<Event>, e: Event, w: Window, n: string)
    ensures LastEarly(es + [e], w, n) ==
      if e.name == n && w.Early(e.time) then Some(e.value) else LastEarly(es, w, n)
    ensures LastInside(es + [e], w, n) ==
      if e.name == n && w.Inside(e.time) then Some(e.value) else LastInside(es, w, n)
    ensures Opening(es + [e], w, n) ==
      if Opening(es, w, n).None? && e.name == n && w.Inside(e.time) then Some(LastEarly(es, w, n))
      else Opening(es, w, n)
    ensures var prev := Held(es, w, e.id, e.generation);
      ToggleCount(es + [e], w, n) == ToggleCount(es, w, n) +
        if e.name == n && w.Inside(e.time) && prev.Some? && prev.value != e.value then 1 else 0
  {
    assert (es + [e])[..|es|] == es;
    ToggleSnoc(es, e, w, n);
  }

  /** The dictionaries keep agreeing with the trace on every name. */
  lemma MatchesAfter(
    pre: map<string, string>, start: map<string, Option<string>>,
    end: map<string, string>, count: map<string, nat>,
    es: seq<Event>, e: Event, w: Window, n: string, prev: Option<string>)
    requires Matches(pre, start, end, count, es, w, n)
    requires prev == Held(es, w, e.id, e.generation)
    ensures Matches(
      if w.Early(e.time) then pre[e.name := e.value] else pre,
      if w.Inside(e.time) && e.name !in start then start[e.name := Lookup(pre, e.name)] else start,
      if w.Inside(e.time) then end[e.name := e.value] else end,
      if w.Inside(e.time) && prev.Some? && prev.value != e.value
      then count[e.name := Lookup(count, e.name).GetOr(0) + 1] else count,
      es + [e], w, n)
  {
    OneMoreChange(es, e, w, n);
  }

  lemma OneMoreHeld(es: seq<Event>, e: Event, w: Window, id: string, generation: nat)
    ensures Held(es + [e], w, id, generation) ==
      if e.id == id && e.generation == generation && !w.Late(e.time) then Some(e.value) else Held(es, w, id, generation)
  {
    assert (es + [e])[..|es|] == es;
  }

  lemma {:induction false} NothingHeld(es: seq<Event>, w: Window, id: string, generation: nat)
    requires forall i :: 0 <= i < |es| && es[i].id == id ==> es[i].generation < generation
    ensures Held(es, w, id, generation) == None
  {
    if es != [] { NothingHeld(es[..|es| - 1], w, id, generation); }
  }

  lemma {:induction false} WidthAppend(c: Context, ids: seq<string>, id: string, name: string)
    requires forall i :: i in ids + [id] ==> i in c.declarations
    ensures WidthOf(c, ids + [id], name) ==
      if exists k :: 0 <= k < |ids| && c.declarations[ids[k]].name == name then WidthOf(c, ids, name)
      else WidthOf(c, [id], name)
  {
    if ids == [] {
      assert ids + [id] == [id];
    } else {
      assert (ids + [id])[1..] == ids[1..] + [id];
      if c.declarations[ids[0]].name != name { WidthAppend(c, ids[1..], id, name); }
    }
  }

  /** The whole nanoseconds of a clock in femtoseconds, cut towards zero. */
  predicate EndsAt(ns: int, femtoseconds: int) {
    && (femtoseconds >= 0 ==> ns * 1_000_000 <= femtoseconds < (ns + 1) * 1_000_000)
    && (femtoseconds <= 0 ==> (ns - 1) * 1_000_000 < femtoseconds <= ns * 1_000_000)
  }

  /** A dump written in whole nanoseconds ends at the time of its last sample. */
  lemma DumpEndsAtLastSample(header: seq<Item>, samples: seq<Sample>, endNs: int)
    requires IsHeader(header) && samples != []
    requires forall i :: 0 <= i < |samples| ==> Declared(Run(Meanings(header)), samples[i])
    requires Run(Meanings(header)).scale == UnitFemtoseconds("ns").value
    requires EndsAt(endNs, Run(ReadLines(RenderAll(header + Body(samples)))).now)
    ensures endNs == samples[|samples| - 1].time
  {
    hide ReadLines, RenderAll, Run, Body;
    ClockReadsBack(header, samples);
  }

  /** The summary of a dump over a window, or the reason there is none. */
  method Parse(lines: seq<string>, startNs: Option<int>, endNs: Option<int>)
    returns (r: Result<Summary, ParseError>)
    ensures startNs.Some? && endNs.Some? && startNs.value > endNs.value <==> r == Failure(StartAfterEnd)
    ensures var c := Run(ReadLines(lines));
      && (r == Failure(NoSignals) ==> c.declarations == map[])
      && (r.Success? ==>
            && c.declarations != map[] && WellFormed(c)
            && Reports(r.value.signals, c, NsWindow(startNs, endNs))
            && EndsAt(r.value.traceEndNs, c.now)
            && r.value.endTimeNs == endNs.GetOr(r.value.traceEndNs)
            && r.value.highlights == Highlights(r.value.signals, startNs.GetOr(0), r.value.endTimeNs))
  {
    if startNs.Some? && endNs.Some? && startNs.value > endNs.value {
      return Failure(StartAfterEnd);
    }
    var pass := new SummaryPass(NsWindow(startNs, endNs));
    ghost var commands := ReadLines(lines);
    for i := 0 to |lines|
      invariant pass.window == NsWindow(startNs, endNs)
      invariant pass.Agrees(Run(commands[..i]))
    {
      assert commands[..i] + [ReadLine(lines[i])] == commands[..i + 1];
      pass.Feed(lines[i], commands[..i]);
    }
    assert commands[..|lines|] == commands;
    ghost var c := Run(commands);
    RunWellFormed(commands);
    var signals := pass.Entries(c);
    if signals == [] {
      assert c.declarations == map[] by {
        assert forall id :: id in c.declarations ==> c.declarations[id].name in Names(c.declarations);
      }
      return Failure(NoSignals);
    }
    var traceEnd := WholeNs(pass.now);
    WholeNsMeaning(pass.now);
    r := Success(Summary(
      signals,
      endNs.GetOr(traceEnd),
      traceEnd,
      Highlights(signals, startNs.GetOr(0), endNs.GetOr(traceEnd))));
  }

  /**
   On a trace whose times do not decrease, an entry of the report is the plain statement about the
   trace: changes inside the window that differ from their signal's previous change; the last value
   before the window, when the window has a change at all; the last value inside it.
   */
  lemma EntryMeaning(c: Context, w: Window, name: string)
    requires WellFormed(c) && Ordered(c.events) && w.Proper()
    ensures var e := EntryFor(c, w, name);
      && e.toggles ==
           |set i: nat | i < |c.events| && c.events[i].name == name
                         && w.Inside(c.events[i].time) && FlipsAt(c.events, i)|
      && e.valueAtStart == (if LastInside(c.events, w, name).Some? then LastEarly(c.events, w, name) else None)
      && e.valueAtEnd == LastInside(c.events, w, name)
  {
    var es := c.events;
    forall i: nat | i < |es| ensures TogglesAt(es, w, i) <==> w.Inside(es[i].time) && FlipsAt(es, i) {
      ToggleMeaning(es, w, i);
    }
    assert ToggleSet(es, w, name) ==
      set i: nat | i < |es| && es[i].name == name && w.Inside(es[i].time) && FlipsAt(es, i);
    OpeningMeaning(es, w, name);
  }

  /**
   The reported last value is the last value at or before the window's end exactly when the last
   in-window value is not empty, or the value it falls back to is empty as well.
   */
  lemma LastValueExact(c: Context, w: Window, name: string)
    requires WellFormed(c) && Ordered(c.events) && w.Proper()
    ensures EntryFor(c, w, name).lastValue == LastUpTo(c.events, w, name)
      <==> LastInside(c.events, w, name) != Some("") || LastEarly(c.events, w, name) == Some("")
  {
    UpToMeaning(c.events, w, name);
  }

  /** A declaration, a change, a time stamp and an empty change, one after another. */
  lemma FourSteps(a: Event, b: Event)
    requires a == Event("!", 0, "a", "1", 0) && b == Event("!", 0, "a", "", 5_000_000)
    ensures Run([VcdTrace.Declare("!", "a", 1), Change("!", "1"), Stamp(5), Change("!", "")]).events == [a, b]
  {
    var declare := VcdTrace.Declare("!", "a", 1);
    RunSnoc([], declare);
    RunSnoc([declare], Change("!", "1"));
    RunSnoc([declare, Change("!", "1")], Stamp(5));
    RunSnoc([declare, Change("!", "1"), Stamp(5)], Change("!", ""));
    assert [] + [declare] == [declare];
    assert [declare] + [Change("!", "1")] == [declare, Change("!", "1")];
    assert [declare, Change("!", "1")] + [Stamp(5)] == [declare, Change("!", "1"), Stamp(5)];
    assert [declare, Change("!", "1"), Stamp(5)] + [Change("!", "")]
      == [declare, Change("!", "1"), Stamp(5), Change("!", "")];
    assert [a] + [b] == [a, b];
  }

  lemma EmptyValueIsForgotten(c: Context, a: Event, b: Event)
    requires WellFormed(c) && c.events == [a, b] && a.name == b.name == "a"
    requires a.time == 0 && b.time == 5_000_000 && a.value == "1" && b.value == ""
    ensures var w := NsWindow(Some(5), None);
      Ordered(c.events) && LastUpTo(c.events, w, "a") == Some("") && EntryFor(c, w, "a").lastValue == Some("1")
  {
    assert [a, b][..1] == [a] && [a][..0] == [];
  }

  /** A vector line without bits is read as an empty value, and the report then forgets it. */
  lemma EmptyVectorIsForgotten()
    ensures
      var items := [Var("wire", 1, "!", "a", []), Scalar('1', "!"), At(5), Vector("", "!")];
      var c := Run(ReadLines(RenderAll(items)));
      && WellFormed(c) && Ordered(c.events)
      && LastUpTo(c.events, NsWindow(Some(5), None), "a") == Some("")
      && EntryFor(c, NsWindow(Some(5), None), "a").lastValue == Some("1")
  {
    hide Run, EntryFor, LastUpTo, Render, ReadLine;
    var items := [Var("wire", 1, "!", "a", []), Scalar('1', "!"), At(5), Vector("", "!")];
    var cs := ReadLines(RenderAll(items));
    DumpReadsBack(items);
    assert cs == [VcdTrace.Declare("!", "a", 1), Change("!", "1"), Stamp(5), Change("!", "")];
    RunWellFormed(cs);
    var a, b := Event("!", 0, "a", "1", 0), Event("!", 0, "a", "", 5_000_000);
    FourSteps(a, b);
    EmptyValueIsForgotten(Run(cs), a, b);
  }
}
