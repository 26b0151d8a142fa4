/** The stable sort that Python's `sorted` and `list.sort` promise, for any total preorder. */
module Sorting {
  import opened Common

  ghost predicate TotalPreorder<T(!new)>(le: (T, T) -> bool) {
    && (forall x, y :: le(x, y) || le(y, x))
    && (forall x, y, z :: le(x, y) && le(y, z) ==> le(x, z))
  }

  ghost predicate SortedBy<T>(s: seq<T>, le: (T, T) -> bool) {
    forall i, j :: 0 <= i < j < |s| ==> le(s[i], s[j])
  }

  function Insert<T>(x: T, s: seq<T>, le: (T, T) -> bool): seq<T> {
    if s == [] || le(x, s[0]) then [x] + s else [s[0]] + Insert(x, s[1..], le)
  }

  /** An element goes in front of the later elements it ties with, so ties keep their order. */
  function Sort<T>(s: seq<T>, le: (T, T) -> bool): seq<T> {
    if s == [] then [] else Insert(s[0], Sort(s[1..], le), le)
  }

  lemma {:induction false} InsertPermutes<T>(x: T, s: seq<T>, le: (T, T) -> bool)
    ensures multiset(Insert(x, s, le)) == multiset{x} + multiset(s)
  {
    if s != [] && !le(x, s[0]) {
      InsertPermutes(x, s[1..], le);
      assert s == [s[0]] + s[1..];
    }
  }

  lemma {:induction false} SortPermutes<T>(s: seq<T>, le: (T, T) -> bool)
    ensures multiset(Sort(s, le)) == multiset(s)
    ensures |Sort(s, le)| == |s|
  {
    if s != [] {
      SortPermutes(s[1..], le);
      InsertPermutes(s[0], Sort(s[1..], le), le);
      assert s == [s[0]] + s[1..];
    }
    assert |multiset(Sort(s, le))| == |Sort(s, le)| && |multiset(s)| == |s|;
  }

  lemma {:induction false} InsertSorted<T(!new)>(x: T, s: seq<T>, le: (T, T) -> bool)
    requires TotalPreorder(le) && SortedBy(s, le)
    ensures SortedBy(Insert(x, s, le), le)
  {
    if s != [] && !le(x, s[0]) {
      InsertSorted(x, s[1..], le);
      var t := Insert(x, s[1..], le);
      InsertPermutes(x, s[1..], le);
      forall y | y in t ensures le(s[0], y) {
        assert y in multiset(t);
        assert y == x || y in multiset(s[1..]);
      }
    }
  }

  lemma {:induction false} SortSorted<T(!new)>(s: seq<T>, le: (T, T) -> bool)
    requires TotalPreorder(le)
    ensures SortedBy(Sort(s, le), le)
  {
    if s != [] {
      SortSorted(s[1..], le);
      InsertSorted(s[0], Sort(s[1..], le), le);
    }
  }

  /** Sorting a sorted list changes nothing. */
  lemma {:induction false} SortFixed<T>(s: seq<T>, le: (T, T) -> bool)
    requires SortedBy(s, le)
    ensures Sort(s, le) == s
  {
    if s != [] {
      SortFixed(s[1..], le);
      assert s == [s[0]] + s[1..];
      if |s| > 1 { assert le(s[0], s[1]); }
    }
  }

  /** `x` ranks before everything that follows an element it ranks before. */
  ghost predicate Monotone<T>(x: T, s: seq<T>, le: (T, T) -> bool) {
    forall i, j :: 0 <= i < j < |s| && le(x, s[i]) ==> le(x, s[j])
  }

  lemma {:induction false} InsertFilter<T>(x: T, s: seq<T>, le: (T, T) -> bool, p: T -> bool)
    requires Monotone(x, s, le)
    ensures Filter(Insert(x, s, le), p) == if p(x) then Insert(x, Filter(s, p), le) else Filter(s, p)
  {
    if s == [] {
      FilterCons(x, s, p);
    } else if le(x, s[0]) {
      FilterCons(x, s, p);
      InsertFirst(x, s, le, p);
    } else {
      var t := Insert(x, s[1..], le);
      InsertFilter(x, s[1..], le, p);
      FilterCons(s[0], t, p);
      InsertCons(x, s[0], Filter(s[1..], p), le);
    }
  }

  lemma InsertCons<T>(x: T, y: T, s: seq<T>, le: (T, T) -> bool)
    requires !le(x, y)
    ensures Insert(x, [y] + s, le) == [y] + Insert(x, s, le)
  {
    assert ([y] + s)[1..] == s;
  }

  lemma InsertFirst<T>(x: T, s: seq<T>, le: (T, T) -> bool, p: T -> bool)
    requires s != [] && le(x, s[0]) && Monotone(x, s, le)
    ensures Insert(x, Filter(s, p), le) == [x] + Filter(s, p)
  {
    var f := Filter(s, p);
    FilterMembers(s, p);
    if f != [] {
      assert f[0] in s;
      var j :| 0 <= j < |s| && s[j] == f[0];
      assert le(x, s[j]);
    }
  }

  lemma SortedMonotone<T(!new)>(x: T, s: seq<T>, le: (T, T) -> bool)
    requires TotalPreorder(le) && SortedBy(s, le)
    ensures Monotone(x, s, le)
  {
    forall i, j | 0 <= i < j < |s| && le(x, s[i]) ensures le(x, s[j]) {
      assert le(s[i], s[j]);
    }
  }

  /** Keeping some elements and then sorting is sorting and then keeping them: the sort is stable. */
  lemma {:induction false} SortFilter<T(!new)>(s: seq<T>, le: (T, T) -> bool, p: T -> bool)
    requires TotalPreorder(le)
    ensures Filter(Sort(s, le), p) == Sort(Filter(s, p), le)
  {
    if s != [] {
      var rest := Sort(s[1..], le);
      SortFilter(s[1..], le, p);
      assert Monotone(s[0], rest, le) by { SortSorted(s[1..], le); SortedMonotone(s[0], rest, le); }
      SortFilterStep(s, le, p);
    }
  }

  lemma SortFilterStep<T>(s: seq<T>, le: (T, T) -> bool, p: T -> bool)
    requires s != [] && Monotone(s[0], Sort(s[1..], le), le)
    requires Filter(Sort(s[1..], le), p) == Sort(Filter(s[1..], p), le)
    ensures Filter(Sort(s, le), p) == Sort(Filter(s, p), le)
  {
    InsertFilter(s[0], Sort(s[1..], le), le, p);
    SortCons(s[0], Filter(s[1..], p), le);
  }

  lemma SortCons<T>(x: T, s: seq<T>, le: (T, T) -> bool)
    ensures Sort([x] + s, le) == Insert(x, Sort(s, le), le)
  {
    assert ([x] + s)[1..] == s;
  }

  /** Two sorted lists with the same elements are equal when ties only occur between equal elements. */
  lemma {:induction false} SortedPermutationUnique<T(!new)>(a: seq<T>, b: seq<T>, le: (T, T) -> bool)
    requires SortedBy(a, le) && SortedBy(b, le)
    requires forall x, y :: x in a && y in a && le(x, y) && le(y, x) ==> x == y
    requires multiset(a) == multiset(b)
    ensures a == b
    decreases |a|
  {
    assert |multiset(a)| == |a| && |multiset(b)| == |b|;
    if a != [] {
      FirstAgrees(a, b, le);
      RestAgrees(a, b);
      SortedPermutationUnique(a[1..], b[1..], le);
      assert a == [a[0]] + a[1..] && b == [b[0]] + b[1..];
    }
  }

  lemma RestAgrees<T>(a: seq<T>, b: seq<T>)
    requires a != [] && b != [] && a[0] == b[0] && multiset(a) == multiset(b)
    ensures multiset(a[1..]) == multiset(b[1..])
  {
    assert a == [a[0]] + a[1..] && b == [b[0]] + b[1..];
    assert multiset(a[1..]) == multiset(a) - multiset{a[0]};
    assert multiset(b[1..]) == multiset(b) - multiset{b[0]};
  }

  lemma FirstAgrees<T(!new)>(a: seq<T>, b: seq<T>, le: (T, T) -> bool)
    requires a != [] && b != [] && SortedBy(a, le) && SortedBy(b, le)
    requires forall x, y :: x in a && y in a && le(x, y) && le(y, x) ==> x == y
    requires multiset(a) == multiset(b)
    ensures a[0] == b[0]
  {
    assert a[0] in multiset(b) && b[0] in multiset(a);
    var i :| 0 <= i < |a| && a[i] == b[0];
    var j :| 0 <= j < |b| && b[j] == a[0];
    if i > 0 && j > 0 { assert le(a[0], a[i]) && le(b[0], b[j]); }
  }

  // ---- cutting a sorted list ----

  /** Behind the elements it ties with. */
  function InsertBehind<T>(x: T, s: seq<T>, le: (T, T) -> bool): seq<T> {
    if s != [] && le(s[0], x) then [s[0]] + InsertBehind(x, s[1..], le) else [x] + s
  }

  lemma {:induction false} InsertsCommute<T(!new)>(h: T, x: T, s: seq<T>, le: (T, T) -> bool)
    requires TotalPreorder(le)
    ensures Insert(h, InsertBehind(x, s, le), le) == InsertBehind(x, Insert(h, s, le), le)
  {
    if s == [] {
      assert [h] + [x] == [h, x] && [h, x][1..] == [x] && [h][1..] == [];
    } else if le(s[0], x) {
      InsertsCommute(h, x, s[1..], le);
      var behind := InsertBehind(x, s[1..], le);
      assert ([s[0]] + behind)[1..] == behind;
      assert ([h] + s)[1..] == s && ([s[0]] + Insert(h, s[1..], le))[1..] == Insert(h, s[1..], le);
    } else {
      assert ([x] + s)[1..] == s && ([h] + s)[1..] == s;
    }
  }

  /** One more element at the end goes behind its ties. */
  lemma {:induction false} SortSnoc<T(!new)>(s: seq<T>, x: T, le: (T, T) -> bool)
    requires TotalPreorder(le)
    ensures Sort(s + [x], le) == InsertBehind(x, Sort(s, le), le)
  {
    if s == [] {
      assert s + [x] == [x] && [x][1..] == [];
    } else {
      assert (s + [x])[1..] == s[1..] + [x];
      SortSnoc(s[1..], x, le);
      InsertsCommute(s[0], x, Sort(s[1..], le), le);
    }
  }

  lemma {:induction false} BehindKeepsFront<T(!new)>(x: T, s: seq<T>, le: (T, T) -> bool, n: nat)
    requires TotalPreorder(le) && SortedBy(s, le) && n <= |s| && (n > 0 ==> le(s[n - 1], x))
    ensures Take(InsertBehind(x, s, le), n) == s[..n]
  {
    if n > 0 {
      if n > 1 { assert le(s[0], s[n - 1]); }
      assert le(s[0], x);
      BehindKeepsFront(x, s[1..], le, n - 1);
      assert Take([s[0]] + InsertBehind(x, s[1..], le), n) == [s[0]] + Take(InsertBehind(x, s[1..], le), n - 1);
      assert [s[0]] + s[1..][..n - 1] == s[..n];
    }
  }

  lemma OneLater<T(!new)>(a: seq<T>, x: T, le: (T, T) -> bool, front: seq<T>)
    requires TotalPreorder(le) && front != [] && front <= Sort(a, le) && le(front[|front| - 1], x)
    ensures front <= Sort(a + [x], le)
  {
    var s, n := Sort(a, le), |front|;
    SortSorted(a, le);
    SortSnoc(a, x, le);
    BehindKeepsFront(x, s, le, n);
    assert s[..n] == front;
  }

  /** Elements that rank no earlier than the first ones leave those as they are. */
  lemma {:induction false} LaterKeepFront<T(!new)>(a: seq<T>, b: seq<T>, le: (T, T) -> bool, front: seq<T>)
    requires TotalPreorder(le) && front != [] && front <= Sort(a, le)
    requires forall x :: x in b ==> le(front[|front| - 1], x)
    ensures front <= Sort(a + b, le)
    decreases |b|
  {
    hide TotalPreorder, Sort;
    if b == [] {
      assert a + b == a;
    } else {
      var k := |b| - 1;
      assert b == b[..k] + [b[k]] && forall x :: x in b[..k] ==> x in b;
      LaterKeepFront(a, b[..k], le, front);
      assert a + b == (a + b[..k]) + [b[k]];
      assert b[k] in b;
      OneLater(a + b[..k], b[k], le, front);
    }
  }

  /** What satisfies the predicate comes first. */
  ghost predicate InFront<T>(s: seq<T>, p: T -> bool) {
    forall i, j :: 0 <= i < j < |s| && p(s[j]) ==> p(s[i])
  }

  /** Then cutting and keeping commute. */
  lemma {:induction false} FilterFront<T>(s: seq<T>, p: T -> bool, n: nat)
    requires InFront(s, p)
    ensures Filter(Take(s, n), p) == Take(Filter(s, p), n)
  {
    if s == [] || n == 0 {
    } else if p(s[0]) {
      FilterFront(s[1..], p, n - 1);
      assert Take(s, n)[1..] == Take(s[1..], n - 1);
      var f := Filter(s[1..], p);
      assert Take([s[0]] + f, n) == [s[0]] + Take(f, n - 1);
    } else {
      forall x | x in s ensures !p(x) {
        var i :| 0 <= i < |s| && s[i] == x;
      }
      FilterNone(s, p);
      FilterNone(Take(s, n), p);
    }
  }

  function Before<T>(pivot: T, le: (T, T) -> bool): T -> bool { (x: T) => !le(pivot, x) }

  lemma BeforeInFront<T(!new)>(s: seq<T>, pivot: T, le: (T, T) -> bool)
    requires TotalPreorder(le) && SortedBy(s, le)
    ensures InFront(s, Before(pivot, le))
  {
    forall i, j | 0 <= i < j < |s| && Before(pivot, le)(s[j]) ensures Before(pivot, le)(s[i]) {
      assert le(s[i], s[j]);
    }
  }

  /** Fewer than `n` elements rank before the last of the first `n`. */
  lemma FewBefore<T(!new)>(s: seq<T>, le: (T, T) -> bool, n: nat)
    requires TotalPreorder(le) && SortedBy(s, le) && 0 < n <= |s|
    ensures |Filter(s, Before(s[n - 1], le))| < n
  {
    var p := Before(s[n - 1], le);
    BeforeInFront(s, s[n - 1], le);
    forall x | x in s[n - 1..] ensures !p(x) {
      var i :| n - 1 <= i < |s| && s[i] == x;
      if i > n - 1 { assert le(s[n - 1], s[i]); }
    }
    assert s == s[..n - 1] + s[n - 1..];
    FilterConcat(s[..n - 1], s[n - 1..], p);
    FilterNone(s[n - 1..], p);
    FilterMembers(s[..n - 1], p);
  }

  lemma EqualCutsKeep<T(!new)>(a: seq<T>, b: seq<T>, le: (T, T) -> bool, n: nat)
    requires TotalPreorder(le) && 0 < n <= |a| && |Sort(a, le)| == |a|
    requires Take(Sort(a + b, le), n) == Take(Sort(a, le), n)
    ensures forall x :: x in b ==> le(Sort(a, le)[n - 1], x)
  {
    var s, t := Sort(a, le), Sort(a + b, le);
    var p := Before(s[n - 1], le);
    SortSorted(a, le);
    SortSorted(a + b, le);
    BeforeInFront(s, s[n - 1], le);
    BeforeInFront(t, s[n - 1], le);
    FilterFront(s, p, n);
    FilterFront(t, p, n);
    FewBefore(s, le, n);
    SortFilter(a, le, p);
    SortFilter(a + b, le, p);
    SortPermutes(Filter(a, p), le);
    SortPermutes(Filter(a + b, p), le);
    FilterConcat(a, b, p);
    assert |Filter(b, p)| == 0;
    FilterMembers(b, p);
  }

  /**
   When more elements come in behind, the first `n` of the sorted list stay the same exactly when
   nothing comes in, or there were `n` and the newcomers rank no earlier than the last of them.
   */
  lemma CutExact<T(!new)>(a: seq<T>, b: seq<T>, le: (T, T) -> bool, n: nat)
    requires TotalPreorder(le)
    ensures |Sort(a, le)| == |a|
    ensures Take(Sort(a + b, le), n) == Take(Sort(a, le), n) <==>
      n == 0 || b == [] || (n <= |a| && forall x :: x in b ==> le(Sort(a, le)[n - 1], x))
  {
    hide Sort;
    SortPermutes(a, le);
    SortPermutes(a + b, le);
    if b == [] {
      assert a + b == a;
    } else if 0 < n <= |a| {
      if Take(Sort(a + b, le), n) == Take(Sort(a, le), n) { EqualCutsKeep(a, b, le, n); }
      else if forall x :: x in b ==> le(Sort(a, le)[n - 1], x) {
        LaterKeepFront(a, b, le, Sort(a, le)[..n]);
      }
    }
  }

  // ---- finite sets in order ----

  ghost predicate LinearOrder<T(!new)>(le: (T, T) -> bool) {
    TotalPreorder(le) && forall x, y :: le(x, y) && le(y, x) ==> x == y
  }

  ghost predicate Least<T(!new)>(m: T, s: set<T>, le: (T, T) -> bool) {
    m in s && forall y :: y in s ==> le(m, y)
  }

  /** Every non-empty finite set has a least element. */
  lemma {:induction false} LeastExists<T(!new)>(s: set<T>, le: (T, T) -> bool)
    requires s != {} && LinearOrder(le)
    ensures exists m :: Least(m, s, le)
    decreases s
  {
    var x :| x in s;
    var t := s - {x};
    if t == {} {
      assert s == {x};
      assert Least(x, s, le);
    } else {
      LeastExists(t, le);
      var m :| Least(m, t, le);
      var l := if le(x, m) then x else m;
      forall y | y in s ensures le(l, y) {
        if y != x { assert y in t; }
      }
      assert Least(l, s, le);
    }
  }

  ghost predicate StrictlyOrdered<T(!new)>(s: seq<T>, le: (T, T) -> bool) {
    SortedBy(s, le) && forall i, j :: 0 <= i < j < |s| ==> s[i] != s[j]
  }

  /** `sorted(s)` of a set. */
  function Ordered<T(!new)>(s: set<T>, le: (T, T) -> bool): (r: seq<T>)
    requires LinearOrder(le)
    ensures StrictlyOrdered(r, le)
    ensures forall x :: x in r <==> x in s
    decreases s
  {
    if s == {} then []
    else
      LeastExists(s, le);
      assert forall m, n :: Least(m, s, le) && Least(n, s, le) ==> m == n;
      var m :| m in s && forall y :: y in s ==> le(m, y);
      var rest := Ordered(s - {m}, le);
      assert forall j :: 0 <= j < |rest| ==> rest[j] in rest;
      [m] + rest
  }

  lemma {:induction false} OrderedCard<T(!new)>(s: set<T>, le: (T, T) -> bool)
    requires LinearOrder(le)
    ensures |Ordered(s, le)| == |s|
  {
    var r := Ordered(s, le);
    ElementCard(r);
    assert (set x | x in r) == s;
  }

  lemma {:induction false} ElementCard<T(!new)>(r: seq<T>)
    requires forall i, j :: 0 <= i < j < |r| ==> r[i] != r[j]
    ensures |set x | x in r| == |r|
  {
    if r != [] {
      ElementCard(r[1..]);
      assert (set x | x in r) == {r[0]} + set x | x in r[1..];
      assert r[0] !in r[1..];
    }
  }

  lemma FirstIsLeast<T(!new)>(s: seq<T>, le: (T, T) -> bool)
    requires s != [] && LinearOrder(le) && SortedBy(s, le)
    ensures forall x :: x in s ==> le(s[0], x)
  {
    forall x | x in s ensures le(s[0], x) {
      var i :| 0 <= i < |s| && s[i] == x;
    }
  }

  lemma RestWithoutFirst<T(!new)>(s: seq<T>, le: (T, T) -> bool, x: T)
    requires s != [] && StrictlyOrdered(s, le)
    ensures x in s[1..] <==> x in s && x != s[0]
  {
    assert s == [s[0]] + s[1..];
    if x in s[1..] { var i :| 0 <= i < |s[1..]| && s[1..][i] == x; assert s[i + 1] == x; }
  }

  /** A strictly ordered list is determined by its elements. */
  lemma {:induction false} OrderedUnique<T(!new)>(a: seq<T>, b: seq<T>, le: (T, T) -> bool)
    requires LinearOrder(le) && StrictlyOrdered(a, le) && StrictlyOrdered(b, le)
    requires forall x :: x in a <==> x in b
    ensures a == b
    decreases |a|
  {
    if a == [] {
      assert forall i :: 0 <= i < |b| ==> b[i] in b;
    } else {
      assert a[0] in b;
      FirstIsLeast(a, le);
      FirstIsLeast(b, le);
      forall x ensures x in a[1..] <==> x in b[1..] {
        RestWithoutFirst(a, le, x);
        RestWithoutFirst(b, le, x);
      }
      OrderedUnique(a[1..], b[1..], le);
      assert a == [a[0]] + a[1..] && b == [b[0]] + b[1..];
    }
  }
}
