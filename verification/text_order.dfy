/** Code-point order on strings: the order of Python's `sorted` and of SQL `ORDER BY` on text. */
module TextOrder {
  import Sorting

  predicate Le(a: string, b: string) {
    if a == "" then true
    else if b == "" then false
    else if a[0] != b[0] then a[0] < b[0]
    else Le(a[1..], b[1..])
  }

  predicate Lt(a: string, b: string) { a != b && Le(a, b) }

  lemma {:induction false} LeTotal(a: string, b: string)
    ensures Le(a, b) || Le(b, a)
  {
    if a != "" && b != "" && a[0] == b[0] { LeTotal(a[1..], b[1..]); }
  }

  lemma {:induction false} LeAntisymmetric(a: string, b: string)
    requires Le(a, b) && Le(b, a)
    ensures a == b
  {
    if a != "" && b != "" && a[0] == b[0] {
      LeAntisymmetric(a[1..], b[1..]);
      assert a == [a[0]] + a[1..] && b == [b[0]] + b[1..];
    }
  }

  lemma {:induction false} LeTransitive(a: string, b: string, c: string)
    requires Le(a, b) && Le(b, c)
    ensures Le(a, c)
  {
    if a != "" && b != "" && c != "" && a[0] == b[0] && b[0] == c[0] {
      LeTransitive(a[1..], b[1..], c[1..]);
    }
  }

  lemma LtTransitive(a: string, b: string, c: string)
    requires Lt(a, b) && Lt(b, c)
    ensures Lt(a, c)
  {
    LeTransitive(a, b, c);
    if a == c { LeAntisymmetric(a, b); }
  }

  lemma LtTotal(a: string, b: string)
    ensures a == b || Lt(a, b) || Lt(b, a)
    ensures !(Lt(a, b) && Lt(b, a))
  {
    LeTotal(a, b);
    if Lt(a, b) && Lt(b, a) { LeAntisymmetric(a, b); }
  }

  lemma LeLinear()
    ensures Sorting.LinearOrder(Le)
  {
    forall a, b ensures Le(a, b) || Le(b, a) { LeTotal(a, b); }
    forall a, b | Le(a, b) && Le(b, a) ensures a == b { LeAntisymmetric(a, b); }
    forall a, b, c | Le(a, b) && Le(b, c) ensures Le(a, c) { LeTransitive(a, b, c); }
  }

  ghost predicate StrictlySorted(ns: seq<string>) {
    forall i, j :: 0 <= i < j < |ns| ==> Lt(ns[i], ns[j])
  }

  /** `sorted(s)` of a set of strings. */
  function Sorted(s: set<string>): (r: seq<string>)
    ensures StrictlySorted(r)
    ensures forall x :: x in r <==> x in s
  {
    LeLinear();
    Sorting.Ordered(s, Le)
  }

  lemma SortedCard(s: set<string>)
    ensures |Sorted(s)| == |s|
  {
    LeLinear();
    Sorting.OrderedCard(s, Le);
  }

  /** A strictly sorted list is determined by its elements. */
  lemma SortedUnique(a: seq<string>, b: seq<string>)
    requires StrictlySorted(a) && StrictlySorted(b)
    requires forall x :: x in a <==> x in b
    ensures a == b
  {
    LeLinear();
    Sorting.OrderedUnique(a, b, Le);
  }
}
