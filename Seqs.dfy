/** Filtering, mapping and the subsequence order on sequences, as list comprehensions use them. */
module Seqs {

  /** `[x for x in s if p(x)]` */
  function Filter<T>(p: T -> bool, s: seq<T>): (r: seq<T>)
    ensures |r| <= |s|
    ensures forall x | x in r :: x in s && p(x)
    ensures forall x | x in s && p(x) :: x in r
  {
    if s == [] then [] else (if p(s[0]) then [s[0]] else []) + Filter(p, s[1..])
  }

  /** `[f(x) for x in s]` */
  function Map<T, U>(f: T -> U, s: seq<T>): (r: seq<U>)
    ensures |r| == |s|
    ensures forall i | 0 <= i < |s| :: r[i] == f(s[i])
  {
    seq(|s|, i requires 0 <= i < |s| => f(s[i]))
  }

  /** `a` is obtained from `b` by deleting elements, keeping the order of the rest. */
  predicate SubsequenceOf<T(==)>(a: seq<T>, b: seq<T>)
    decreases |b|
  {
    a == [] || (b != [] && ((a[0] == b[0] && SubsequenceOf(a[1..], b[1..])) || SubsequenceOf(a, b[1..])))
  }

  /** Filtering the concatenation of two sequences filters each part. */
  lemma {:induction false} FilterAppend<T>(p: T -> bool, a: seq<T>, b: seq<T>)
    ensures Filter(p, a + b) == Filter(p, a) + Filter(p, b)
    decreases |a|
  {
    if a != [] {
      assert (a + b)[1..] == a[1..] + b;
      FilterAppend(p, a[1..], b);
    } else {
      assert a + b == b;
    }
  }

  /** Filtering keeps the elements it keeps in their original order. */
  lemma {:induction false} FilterIsSubsequence<T>(p: T -> bool, s: seq<T>)
    ensures SubsequenceOf(Filter(p, s), s)
    decreases |s|
  {
    if s != [] {
      FilterIsSubsequence(p, s[1..]);
      if p(s[0]) {
        var r := Filter(p, s);
        assert r[0] == s[0] && r[1..] == Filter(p, s[1..]);
      } else {
        assert Filter(p, s) == Filter(p, s[1..]);
      }
    }
  }

  /** Mapping both sides preserves the subsequence order. */
  lemma {:induction false} MapSubsequence<T, U>(f: T -> U, a: seq<T>, b: seq<T>)
    requires SubsequenceOf(a, b)
    ensures SubsequenceOf(Map(f, a), Map(f, b))
    decreases |b|
  {
    if a != [] {
      assert Map(f, b)[1..] == Map(f, b[1..]);
      if a[0] == b[0] && SubsequenceOf(a[1..], b[1..]) {
        assert Map(f, a)[1..] == Map(f, a[1..]);
        MapSubsequence(f, a[1..], b[1..]);
      } else {
        MapSubsequence(f, a, b[1..]);
      }
    }
  }

  /** Filtering after mapping keeps the same elements when the mapping does
      not change the filter's verdict. */
  lemma {:induction false} FilterMap<T, U>(p: U -> bool, q: T -> bool, f: T -> U, s: seq<T>)
    requires forall x | x in s :: p(f(x)) == q(x)
    ensures Filter(p, Map(f, s)) == Map(f, Filter(q, s))
    decreases |s|
  {
    if s != [] {
      assert Map(f, s)[1..] == Map(f, s[1..]);
      FilterMap(p, q, f, s[1..]);
      if q(s[0]) {
        assert Map(f, Filter(q, s)) == [f(s[0])] + Map(f, Filter(q, s[1..]));
      }
    }
  }
}
