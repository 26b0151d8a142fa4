/**
 What a window summary means, said about the whole sequence of value changes:
 values held, values at the window's edges, and toggles inside it.
 */
module VcdWindow {
  import opened Common
  import opened VcdTrace
  import opened VcdForms

  /** Bounds in femtoseconds, both inclusive. */
  datatype Window = Window(lo: Option<int>, hi: Option<int>) {
    predicate Early(t: int) { lo.Some? && t < lo.value }
    predicate Late(t: int) { !Early(t) && hi.Some? && t > hi.value }
    predicate Inside(t: int) { !Early(t) && !Late(t) }
    predicate Proper() { lo.Some? && hi.Some? ==> lo.value <= hi.value }
  }

  const EVERYTHING := Window(None, None)

  function InFemtoseconds(ns: Option<int>): Option<int> {
    match ns
    case None => None
    case Some(t) => Some(t * 1_000_000)
  }

  function NsWindow(lo: Option<int>, hi: Option<int>): Window {
    Window(InFemtoseconds(lo), InFemtoseconds(hi))
  }

  /** A time in whole nanoseconds lies in the window exactly when it lies between its bounds, both included. */
  lemma WindowMeaning(lo: Option<int>, hi: Option<int>, t: int)
    ensures NsWindow(lo, hi).Inside(t * 1_000_000) <==>
      (lo.Some? ==> lo.value <= t) && (hi.Some? ==> t <= hi.value)
    ensures NsWindow(lo, hi).Early(t * 1_000_000) <==> lo.Some? && t < lo.value
  {
  }

  /** The value a declared signal holds after `es`: that of its last change that is not late. */
  function Held(es: seq<Event>, w: Window, id: string, generation: nat): Option<string> {
    if es == [] then None
    else
      var e := es[|es| - 1];
      if e.id == id && e.generation == generation && !w.Late(e.time) then Some(e.value)
      else Held(es[..|es| - 1], w, id, generation)
  }

  /** Value of the last change under this name before the window. */
  function LastEarly(es: seq<Event>, w: Window, name: string): Option<string> {
    if es == [] then None
    else
      var e := es[|es| - 1];
      if e.name == name && w.Early(e.time) then Some(e.value) else LastEarly(es[..|es| - 1], w, name)
  }

  /** Value of the last change under this name inside the window. */
  function LastInside(es: seq<Event>, w: Window, name: string): Option<string> {
    if es == [] then None
    else
      var e := es[|es| - 1];
      if e.name == name && w.Inside(e.time) then Some(e.value) else LastInside(es[..|es| - 1], w, name)
  }

  /** Value of the last change under this name at or before the window's end. */
  function LastUpTo(es: seq<Event>, w: Window, name: string): Option<string> {
    if es == [] then None
    else
      var e := es[|es| - 1];
      if e.name == name && (w.hi.None? || e.time <= w.hi.value) then Some(e.value)
      else LastUpTo(es[..|es| - 1], w, name)
  }

  /** None until the first change inside the window; from then on the value held before it. */
  function Opening(es: seq<Event>, w: Window, name: string): Option<Option<string>> {
    if es == [] then None
    else
      var front, e := es[..|es| - 1], es[|es| - 1];
      if Opening(front, w, name).Some? then Opening(front, w, name)
      else if e.name == name && w.Inside(e.time) then Some(LastEarly(front, w, name))
      else None
  }

  /** Change `i` lies inside the window and differs from what its signal held. */
  ghost predicate TogglesAt(es: seq<Event>, w: Window, i: nat)
    requires i < |es|
  {
    var before := Held(es[..i], w, es[i].id, es[i].generation);
    w.Inside(es[i].time) && before.Some? && before.value != es[i].value
  }

  ghost function ToggleSet(es: seq<Event>, w: Window, name: string): set<nat> {
    set i: nat | i < |es| && es[i].name == name && TogglesAt(es, w, i)
  }

  ghost function ToggleCount(es: seq<Event>, w: Window, name: string): nat {
    |ToggleSet(es, w, name)|
  }

  lemma ToggleSnoc(es: seq<Event>, e: Event, w: Window, name: string)
    ensures ToggleCount(es + [e], w, name) ==
      ToggleCount(es, w, name) + if e.name == name && TogglesAt(es + [e], w, |es|) then 1 else 0
  {
    var all := es + [e];
    forall i: nat | i < |es| ensures TogglesAt(all, w, i) == TogglesAt(es, w, i) {
      assert all[..i] == es[..i];
    }
    var added: set<nat> := if e.name == name && TogglesAt(all, w, |es|) then {|es|} else {};
    assert ToggleSet(all, w, name) == ToggleSet(es, w, name) + added;
  }

  /** A change that was seen under this name and is not late leaves a trace at one of the edges. */
  lemma {:induction false} HeldLeavesTrace(es: seq<Event>, w: Window, id: string, generation: nat, name: string)
    requires forall i :: 0 <= i < |es| && es[i].id == id && es[i].generation == generation ==> es[i].name == name
    requires Held(es, w, id, generation).Some?
    ensures LastEarly(es, w, name).Some? || Opening(es, w, name).Some?
  {
    var front, e := es[..|es| - 1], es[|es| - 1];
    if !(e.id == id && e.generation == generation && !w.Late(e.time)) {
      HeldLeavesTrace(front, w, id, generation, name);
    }
  }

  // ---- traces whose time stamps do not decrease, as the format requires ----

  ghost predicate Ordered(es: seq<Event>) {
    forall i, j :: 0 <= i < j < |es| ==> es[i].time <= es[j].time
  }

  /** Change `i` differs from the previous change of its signal: no window is mentioned. */
  ghost predicate FlipsAt(es: seq<Event>, i: nat)
    requires i < |es|
  {
    var before := Held(es[..i], EVERYTHING, es[i].id, es[i].generation);
    before.Some? && before.value != es[i].value
  }

  lemma {:induction false} NothingLate(es: seq<Event>, w: Window, id: string, generation: nat)
    requires forall i :: 0 <= i < |es| ==> !w.Late(es[i].time)
    ensures Held(es, w, id, generation) == Held(es, EVERYTHING, id, generation)
  {
    if es != [] { NothingLate(es[..|es| - 1], w, id, generation); }
  }

  /** In an ordered trace a toggle is an in-window change that differs from its signal's previous change. */
  lemma ToggleMeaning(es: seq<Event>, w: Window, i: nat)
    requires Ordered(es) && i < |es|
    ensures TogglesAt(es, w, i) <==> w.Inside(es[i].time) && FlipsAt(es, i)
  {
    if w.Inside(es[i].time) {
      NothingLate(es[..i], w, es[i].id, es[i].generation);
    }
  }

  /** The dictionary of previous values holds exactly the most recent change of each signal. */
  lemma {:induction false} HeldMeaning(es: seq<Event>, id: string, generation: nat)
    ensures Held(es, EVERYTHING, id, generation).None? <==>
      (forall i :: 0 <= i < |es| ==> !(es[i].id == id && es[i].generation == generation))
    ensures Held(es, EVERYTHING, id, generation).Some? ==>
      exists i :: && 0 <= i < |es| && es[i].id == id && es[i].generation == generation
                  && es[i].value == Held(es, EVERYTHING, id, generation).value
                  && forall k :: i < k < |es| ==> !(es[k].id == id && es[k].generation == generation)
  {
    if es != [] {
      var n := |es| - 1;
      var e := es[n];
      HeldMeaning(es[..n], id, generation);
      if e.id == id && e.generation == generation {
        assert Held(es, EVERYTHING, id, generation) == Some(es[n].value);
      } else if Held(es[..n], EVERYTHING, id, generation).Some? {
        var i :| && 0 <= i < n && es[..n][i].id == id && es[..n][i].generation == generation
                 && es[..n][i].value == Held(es[..n], EVERYTHING, id, generation).value
                 && forall k :: i < k < n ==> !(es[..n][k].id == id && es[..n][k].generation == generation);
        assert es[i].value == Held(es, EVERYTHING, id, generation).value;
        assert forall k :: i < k < n ==> es[..n][k] == es[k];
      } else {
        assert forall k :: 0 <= k < n ==> es[..n][k] == es[k];
      }
    }
  }

  lemma {:induction false} OpeningSeen(es: seq<Event>, w: Window, name: string)
    ensures Opening(es, w, name).Some? <==> LastInside(es, w, name).Some?
    ensures LastInside(es, w, name).Some? <==>
      exists i :: 0 <= i < |es| && es[i].name == name && w.Inside(es[i].time)
  {
    if es != [] {
      var n := |es| - 1;
      OpeningSeen(es[..n], w, name);
      assert forall k :: 0 <= k < n ==> es[..n][k] == es[k];
    }
  }

  /** The start value is the last value before the window, given only when the window has a change. */
  lemma {:induction false} OpeningMeaning(es: seq<Event>, w: Window, name: string)
    requires Ordered(es)
    ensures Opening(es, w, name) ==
      if LastInside(es, w, name).Some? then Some(LastEarly(es, w, name)) else None
  {
    if es != [] {
      var front, e := es[..|es| - 1], es[|es| - 1];
      OpeningMeaning(front, w, name);
      OpeningSeen(front, w, name);
      if LastInside(front, w, name).Some? {
        var i :| 0 <= i < |front| && front[i].name == name && w.Inside(front[i].time);
        assert es[i].time <= e.time;
        assert !w.Early(e.time);
      }
      OpeningSeen(es, w, name);
    }
  }

  /** The last value up to the window's end is the last one inside it, else the last one before it. */
  lemma {:induction false} UpToMeaning(es: seq<Event>, w: Window, name: string)
    requires Ordered(es) && w.Proper()
    ensures LastUpTo(es, w, name) ==
      if LastInside(es, w, name).Some? then LastInside(es, w, name) else LastEarly(es, w, name)
  {
    if es != [] {
      var front, e := es[..|es| - 1], es[|es| - 1];
      UpToMeaning(front, w, name);
      OpeningSeen(front, w, name);
      if LastInside(front, w, name).Some? {
        var i :| 0 <= i < |front| && front[i].name == name && w.Inside(front[i].time);
        assert es[i].time <= e.time;
      }
    }
  }

  // ---- toggle counts as a measure on windows ----

  ghost predicate Within(inner: Window, outer: Window) {
    forall t :: inner.Inside(t) ==> outer.Inside(t)
  }

  /** A narrower window never counts more toggles. */
  lemma SubWindowCountsLess(es: seq<Event>, inner: Window, outer: Window, name: string)
    requires Ordered(es) && Within(inner, outer)
    ensures ToggleCount(es, inner, name) <= ToggleCount(es, outer, name)
  {
    forall i: nat | i in ToggleSet(es, inner, name) ensures i in ToggleSet(es, outer, name) {
      ToggleMeaning(es, inner, i);
      ToggleMeaning(es, outer, i);
    }
    SubsetCard(ToggleSet(es, inner, name), ToggleSet(es, outer, name));
  }

  /**
   Cutting a window in two keeps every toggle: the right part counts the change across the cut,
   because values are carried over from before it. What falls between the parts is the third term.
   */
  lemma CutCounts(es: seq<Event>, w: Window, left: int, right: int, name: string)
    requires Ordered(es) && left < right
    requires w.lo.Some? ==> w.lo.value <= left
    requires w.hi.Some? ==> right <= w.hi.value
    ensures ToggleCount(es, w, name) ==
      ToggleCount(es, Window(w.lo, Some(left)), name)
      + ToggleCount(es, Window(Some(left + 1), Some(right - 1)), name)
      + ToggleCount(es, Window(Some(right), w.hi), name)
  {
    var a, b, c := Window(w.lo, Some(left)), Window(Some(left + 1), Some(right - 1)), Window(Some(right), w.hi);
    var sa, sb, sc := ToggleSet(es, a, name), ToggleSet(es, b, name), ToggleSet(es, c, name);
    forall i: nat | i < |es| && es[i].name == name
      ensures i in ToggleSet(es, w, name) <==> i in sa || i in sb || i in sc
      ensures !(i in sa && i in sb) && !(i in sa && i in sc) && !(i in sb && i in sc)
    {
      ToggleMeaning(es, w, i);
      ToggleMeaning(es, a, i);
      ToggleMeaning(es, b, i);
      ToggleMeaning(es, c, i);
    }
    assert ToggleSet(es, w, name) == sa + sb + sc;
    assert sa !! sb && (sa + sb) !! sc;
  }

  /** Toggles strictly between `m` and `m + 1` nanoseconds: windows in whole nanoseconds miss them. */
  ghost function BetweenTicks(es: seq<Event>, m: int, name: string): nat {
    ToggleCount(es, Window(Some(m * 1_000_000 + 1), Some((m + 1) * 1_000_000 - 1)), name)
  }

  /** Adjacent windows in whole nanoseconds add up exactly when nothing toggles between the two ticks. */
  lemma AdjacentWindowsAdd(es: seq<Event>, lo: Option<int>, m: int, hi: Option<int>, name: string)
    requires Ordered(es)
    requires lo.Some? ==> lo.value <= m
    requires hi.Some? ==> m + 1 <= hi.value
    ensures ToggleCount(es, NsWindow(lo, hi), name) ==
        ToggleCount(es, NsWindow(lo, Some(m)), name) + ToggleCount(es, NsWindow(Some(m + 1), hi), name)
      <==> BetweenTicks(es, m, name) == 0
  {
    CutCounts(es, NsWindow(lo, hi), m * 1_000_000, (m + 1) * 1_000_000, name);
  }

  /**
   A dump whose every scale is a whole number of nanoseconds has nothing between two ticks: there
   adjacent windows always add up.
   */
  lemma WholeScalesAdd(commands: seq<Command>, lo: Option<int>, m: int, hi: Option<int>, name: string)
    requires WholeScales(commands) && Ordered(Run(commands).events)
    requires lo.Some? ==> lo.value <= m
    requires hi.Some? ==> m + 1 <= hi.value
    ensures var es := Run(commands).events;
      && BetweenTicks(es, m, name) == 0
      && ToggleCount(es, NsWindow(lo, hi), name) ==
           ToggleCount(es, NsWindow(lo, Some(m)), name) + ToggleCount(es, NsWindow(Some(m + 1), hi), name)
  {
    hide Run, ToggleCount;
    var es := Run(commands).events;
    TimesAreWhole(commands);
    NothingBetween(es, m, name);
    AdjacentWindowsAdd(es, lo, m, hi, name);
  }

  lemma NothingBetween(es: seq<Event>, m: int, name: string)
    requires forall i :: 0 <= i < |es| ==> WholeNanoseconds(es[i].time)
    ensures BetweenTicks(es, m, name) == 0
  {
    hide TogglesAt;
    var gap := Window(Some(m * 1_000_000 + 1), Some((m + 1) * 1_000_000 - 1));
    forall i: nat | i < |es| ensures !TogglesAt(es, gap, i) { NotBetween(es, m, i); }
    assert ToggleSet(es, gap, name) == {};
  }

  lemma NotBetween(es: seq<Event>, m: int, i: nat)
    requires i < |es| && WholeNanoseconds(es[i].time)
    ensures !TogglesAt(es, Window(Some(m * 1_000_000 + 1), Some((m + 1) * 1_000_000 - 1)), i)
  {
    var k: int :| es[i].time == Nanoseconds(k);
  }

  /** A dump in picoseconds that changes half-way between 0 ns and 1 ns. */
  function HalfTick(): seq<Item> {
    [ Scale(1, "ps", false), Var("wire", 1, "!", "a", []),
      At(0), Scalar('0', "!"), At(500), Scalar('1', "!") ]
  }

  lemma HalfTickContext()
    ensures var c := Run([Timescale(1_000), Declare("!", "a", 1)]);
      c.scale == 1_000 && c.declarations == map["!" := Declaration("a", 1, 0)]
  {
    var scale, declare := Timescale(1_000), Declare("!", "a", 1);
    RunSnoc([], scale);
    RunSnoc([scale], declare);
    assert [] + [scale] == [scale];
    assert [scale] + [declare] == [scale, declare];
  }

  lemma OneSample(c: Context, a: Sample)
    requires Declared(c, a)
    ensures Body([a]) == [At(a.time), a.change] && Applied(c, [a]) == [EventOf(c, a)]
  {
    assert [a][..0] == [];
    assert Body([a]) == [] + [At(a.time), a.change];
  }

  lemma TwoSamples(c: Context, a: Sample, b: Sample)
    requires Declared(c, a) && Declared(c, b)
    ensures Body([a, b]) == [At(a.time), a.change, At(b.time), b.change]
    ensures Applied(c, [a, b]) == [EventOf(c, a), EventOf(c, b)]
  {
    OneSample(c, a);
    assert [a, b][..1] == [a];
    assert Body([a, b]) == Body([a]) + [At(b.time), b.change];
    assert Applied(c, [a, b]) == Applied(c, [a]) + [EventOf(c, b)];
  }

  lemma HalfTickEvents()
    ensures Run(ReadLines(RenderAll(HalfTick()))).events
      == [Event("!", 0, "a", "0", 0), Event("!", 0, "a", "1", 500_000)]
  {
    hide ReadLines, RenderAll, Body, Applied, Run;
    var header := [Scale(1, "ps", false), Var("wire", 1, "!", "a", [])];
    var a, b := Sample(0, Scalar('0', "!")), Sample(500, Scalar('1', "!"));
    assert Meanings(header) == [Timescale(1_000), Declare("!", "a", 1)];
    HalfTickContext();
    TwoSamples(Run(Meanings(header)), a, b);
    assert HalfTick() == header + Body([a, b]);
    TraceReadsBack(header, [a, b]);
  }

  /** Its two windows of whole nanoseconds count nothing, and the window they make up counts one toggle. */
  lemma HalfTickMissed()
    ensures var es := Run(ReadLines(RenderAll(HalfTick()))).events;
      && Ordered(es) && BetweenTicks(es, 0, "a") == 1
      && ToggleCount(es, NsWindow(Some(0), Some(1)), "a") == 1
      && ToggleCount(es, NsWindow(Some(0), Some(0)), "a") == ToggleCount(es, NsWindow(Some(1), Some(1)), "a") == 0
  {
    hide Run, ReadLines, RenderAll;
    HalfTickEvents();
    var a, b := Event("!", 0, "a", "0", 0), Event("!", 0, "a", "1", 500_000);
    TwoEventToggles(a, b, NsWindow(Some(0), Some(1)));
    TwoEventToggles(a, b, NsWindow(Some(0), Some(0)));
    TwoEventToggles(a, b, NsWindow(Some(1), Some(1)));
    TwoEventToggles(a, b, Window(Some(1), Some(999_999)));
  }

  /** Two changes of one signal to different values toggle once, where the second one lies. */
  lemma TwoEventToggles(a: Event, b: Event, w: Window)
    requires a.id == b.id && a.generation == b.generation && a.name == b.name && a.value != b.value
    requires a.time <= b.time
    ensures ToggleCount([a, b], w, b.name) == if w.Inside(b.time) then 1 else 0
  {
    var es := [a, b];
    assert es[..0] == [] && es[..1] == [a] && [a][..0] == [];
    ToggleMeaning(es, w, 0);
    ToggleMeaning(es, w, 1);
    assert ToggleSet(es, w, b.name) == if w.Inside(b.time) then {1} else {};
  }

  // ---- signals that share a name ----

  type Channel = (string, nat)

  function ChannelAt(es: seq<Event>): nat -> Channel {
    (i: nat) => if i < |es| then (es[i].id, es[i].generation) else ("", 0)
  }

  /** The declarations that carry this name. */
  ghost function Channels(es: seq<Event>, name: string): set<Channel> {
    set i: nat | i < |es| && es[i].name == name :: ChannelAt(es)(i)
  }

  /** Toggles of one declaration. */
  ghost function ChannelToggles(es: seq<Event>, w: Window, name: string): Channel -> int {
    ClassSize(ToggleSet(es, w, name), ChannelAt(es))
  }

  /** The count reported for a name is the sum over every declaration that shares it. */
  lemma MergedCountIsSum(es: seq<Event>, w: Window, name: string)
    ensures ToggleCount(es, w, name) == SumOver(Channels(es, name), ChannelToggles(es, w, name))
  {
    var s := ToggleSet(es, w, name);
    ClassesAddUp(s, ChannelAt(es), Channels(es, name));
    assert Classes(s, ChannelAt(es), Channels(es, name)) == s;
  }
}
