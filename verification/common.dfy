/** Small vocabulary shared by every module of the model. */
module Common {

  datatype Option<+T> = None | Some(value: T) {
    function GetOr(default: T): T {
      match this
      case Some(v) => v
      case None => default
    }
  }

  datatype Result<+T, +E> = Success(value: T) | Failure(error: E)

  /** `d.get(k)` of a dictionary. */
  function Lookup<K, V>(d: map<K, V>, k: K): Option<V> {
    if k in d then Some(d[k]) else None
  }

  function Min(a: int, b: int): int { if a <= b then a else b }

  function Max(a: int, b: int): int { if a <= b then b else a }

  /** `s[:n]` with Python's rules: a negative bound counts from the end, and both ends clamp. */
  function Take<T>(s: seq<T>, n: int): (r: seq<T>)
    ensures |r| == if n < 0 then Max(0, |s| + n) else Min(n, |s|)
    ensures r <= s
  {
    if n >= |s| then s
    else if n >= 0 then s[..n]
    else if |s| + n >= 0 then s[..|s| + n]
    else []
  }

  /** `s[lo:hi]` for non-negative bounds: both ends clamp. */
  function Slice<T>(s: seq<T>, lo: nat, hi: nat): (r: seq<T>)
    ensures |r| == Max(0, Min(hi, |s|) - lo)
    ensures forall k :: 0 <= k < |r| ==> r[k] == s[lo + k]
  {
    if lo >= |s| || lo >= hi then [] else s[lo..Min(hi, |s|)]
  }

  /** The elements of `s` that satisfy `p`, in order. */
  function Filter<T>(s: seq<T>, p: T -> bool): seq<T> {
    if s == [] then []
    else if p(s[0]) then [s[0]] + Filter(s[1..], p)
    else Filter(s[1..], p)
  }

  lemma {:induction false} FilterMembers<T>(s: seq<T>, p: T -> bool)
    ensures forall x :: x in Filter(s, p) ==> x in s && p(x)
    ensures forall x :: x in s && p(x) ==> x in Filter(s, p)
    ensures |Filter(s, p)| <= |s|
  {
    if s != [] { FilterMembers(s[1..], p); }
  }

  lemma FilterCons<T>(x: T, s: seq<T>, p: T -> bool)
    ensures Filter([x] + s, p) == if p(x) then [x] + Filter(s, p) else Filter(s, p)
  {
    assert ([x] + s)[1..] == s;
  }

  lemma {:induction false} FilterConcat<T>(a: seq<T>, b: seq<T>, p: T -> bool)
    ensures Filter(a + b, p) == Filter(a, p) + Filter(b, p)
  {
    if a == [] {
      assert a + b == b;
    } else {
      assert (a + b)[1..] == a[1..] + b;
      FilterConcat(a[1..], b, p);
    }
  }

  lemma {:induction false} FilterAll<T>(s: seq<T>, p: T -> bool)
    requires forall x :: x in s ==> p(x)
    ensures Filter(s, p) == s
  {
    if s != [] {
      FilterAll(s[1..], p);
      assert s == [s[0]] + s[1..];
    }
  }

  lemma {:induction false} FilterNone<T>(s: seq<T>, p: T -> bool)
    requires forall x :: x in s ==> !p(x)
    ensures Filter(s, p) == []
  {
    if s != [] {
      FilterNone(s[1..], p);
    }
  }

  /** Sum of the values of a finite count dictionary over a set of its keys. */
  ghost function SumOver<K(!new)>(ks: set<K>, f: K -> int): int
    decreases ks
  {
    if ks == {} then 0
    else
      var k :| k in ks;
      f(k) + SumOver(ks - {k}, f)
  }

  /** The sum does not depend on the order in which the keys are drawn. */
  lemma {:induction false} SumOverRemove<K(!new)>(ks: set<K>, k: K, f: K -> int)
    requires k in ks
    ensures SumOver(ks, f) == f(k) + SumOver(ks - {k}, f)
    decreases ks
  {
    var x :| x in ks && SumOver(ks, f) == f(x) + SumOver(ks - {x}, f);
    if x != k {
      SumOverRemove(ks - {x}, k, f);
      SumOverRemove(ks - {k}, x, f);
      assert ks - {x} - {k} == ks - {k} - {x};
    }
  }

  /** Functions that agree on the keys have the same sum. */
  lemma {:induction false} SumOverExt<K(!new)>(ks: set<K>, f: K -> int, g: K -> int)
    requires forall k :: k in ks ==> f(k) == g(k)
    ensures SumOver(ks, f) == SumOver(ks, g)
    decreases ks
  {
    if ks != {} {
      var k :| k in ks;
      SumOverRemove(ks, k, f);
      SumOverRemove(ks, k, g);
      SumOverExt(ks - {k}, f, g);
    }
  }

  lemma {:induction false} SumOverDisjoint<K(!new)>(a: set<K>, b: set<K>, f: K -> int)
    requires a !! b
    ensures SumOver(a + b, f) == SumOver(a, f) + SumOver(b, f)
    decreases a
  {
    if a == {} {
      assert a + b == b;
    } else {
      var k :| k in a;
      SumOverRemove(a, k, f);
      SumOverRemove(a + b, k, f);
      assert a + b - {k} == (a - {k}) + b;
      SumOverDisjoint(a - {k}, b, f);
    }
  }

  lemma {:induction false} SubsetCard<T>(a: set<T>, b: set<T>)
    requires a <= b
    ensures |a| <= |b|
    ensures |a| == |b| ==> a == b
    decreases a
  {
    if a == {} {
      if b != {} { var x :| x in b; assert |b| >= 1; }
    } else {
      var x :| x in a;
      SubsetCard(a - {x}, b - {x});
      if |a| == |b| { assert a == (a - {x}) + {x} == (b - {x}) + {x} == b; }
    }
  }

  /** The members of `s` whose key is `k`, and the members whose key lies in `ks`. */
  function Class<X, K(==)>(s: set<X>, key: X -> K, k: K): set<X> {
    set x | x in s && key(x) == k
  }

  ghost function Classes<X, K>(s: set<X>, key: X -> K, ks: set<K>): set<X> {
    set x | x in s && key(x) in ks
  }

  ghost function ClassSize<X, K(!new)>(s: set<X>, key: X -> K): K -> int {
    k => |Class(s, key, k)|
  }

  /** Grouping by a key splits a set into disjoint classes: their sizes add up. */
  lemma {:induction false} ClassesAddUp<X, K(!new)>(s: set<X>, key: X -> K, ks: set<K>)
    ensures |Classes(s, key, ks)| == SumOver(ks, ClassSize(s, key))
    decreases ks
  {
    if ks == {} {
      assert Classes(s, key, ks) == {};
    } else {
      var k :| k in ks;
      SumOverRemove(ks, k, ClassSize(s, key));
      ClassesAddUp(s, key, ks - {k});
      assert Classes(s, key, ks) == Classes(s, key, ks - {k}) + Class(s, key, k);
    }
  }

  ghost predicate InjectiveOn<A(!new), B>(s: set<A>, f: A -> B) {
    forall x, y :: x in s && y in s && f(x) == f(y) ==> x == y
  }

  /** A one-to-one correspondence between finite sets. */
  lemma {:induction false} BijectionCard<A(!new), B(!new)>(s: set<A>, t: set<B>, f: A -> B)
    requires forall x :: x in s ==> f(x) in t
    requires InjectiveOn(s, f)
    requires forall y :: y in t ==> exists x :: x in s && f(x) == y
    ensures |s| == |t|
    decreases s
  {
    if s == {} {
      assert t == {};
    } else {
      var x :| x in s;
      forall y | y in t - {f(x)} ensures exists z :: z in s - {x} && f(z) == y {
        var z :| z in s && f(z) == y;
        assert z in s - {x};
      }
      BijectionCard(s - {x}, t - {f(x)}, f);
    }
  }

  ghost function Product<A, B>(a: set<A>, b: set<B>): set<(A, B)> {
    set x, y | x in a && y in b :: (x, y)
  }

  lemma {:induction false} ProductCard<A(!new), B(!new)>(a: set<A>, b: set<B>)
    ensures |Product(a, b)| == |a| * |b|
    decreases a
  {
    if a == {} {
      assert Product(a, b) == {};
    } else {
      var x :| x in a;
      var row := set y | y in b :: (x, y);
      BijectionCard(b, row, (y: B) => (x, y));
      ProductCard(a - {x}, b);
      assert Product(a, b) == Product(a - {x}, b) + row;
      assert |a| * |b| == (|a| - 1) * |b| + |b|;
    }
  }

  /** Terms of at least one sum to the number of terms exactly when each of them is one. */
  lemma {:induction false} SumOfOnes<K(!new)>(ks: set<K>, f: K -> int)
    requires forall k :: k in ks ==> f(k) >= 1
    ensures SumOver(ks, f) >= |ks|
    ensures SumOver(ks, f) == |ks| <==> forall k :: k in ks ==> f(k) == 1
    decreases ks
  {
    if ks != {} {
      var k :| k in ks;
      SumOverRemove(ks, k, f);
      SumOfOnes(ks - {k}, f);
    }
  }
}
