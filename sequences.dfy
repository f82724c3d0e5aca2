/** `Array.prototype.filter` on sequences, with the facts that make a filter
    an order-preserving selection: membership, concatenation, and the place
    of each kept element in the result. */
module Sequences {

  /** The elements of `s` that satisfy `p`, in the order of `s`. */
  function Filter<T(!new)>(s: seq<T>, p: T -> bool): (r: seq<T>)
    ensures |r| <= |s|
  {
    if s == [] then [] else (if p(s[0]) then [s[0]] else []) + Filter(s[1..], p)
  }

  /** An element is kept exactly when it is in `s` and satisfies `p`. */
  lemma {:induction false} FilterMembership<T(!new)>(s: seq<T>, p: T -> bool)
    ensures forall x :: x in Filter(s, p) <==> x in s && p(x)
  {
    if s != [] {
      FilterMembership(s[1..], p);
      assert s == [s[0]] + s[1..];
    }
  }

  /** Filtering distributes over concatenation: what is kept from the front
      part comes before what is kept from the back part. */
  lemma {:induction false} FilterConcat<T(!new)>(a: seq<T>, b: seq<T>, p: T -> bool)
    ensures Filter(a + b, p) == Filter(a, p) + Filter(b, p)
  {
    if a == [] {
      assert a + b == b;
    } else {
      var x, t := a[0], a[1..];
      assert a == [x] + t;
      assert a + b == [x] + (t + b);
      FilterCons(x, t, p);
      FilterCons(x, t + b, p);
      FilterConcat(t, b, p);
    }
  }

  /** A kept element `s[i]` sits in the result exactly at the position given
      by the number of elements kept before it. */
  lemma FilterRank<T(!new)>(s: seq<T>, p: T -> bool, i: int)
    requires 0 <= i < |s| && p(s[i])
    ensures |Filter(s[..i], p)| < |Filter(s, p)|
    ensures Filter(s, p)[|Filter(s[..i], p)|] == s[i]
  {
    assert s == s[..i] + s[i..];
    FilterConcat(s[..i], s[i..], p);
    assert s[i..][0] == s[i];
    assert Filter(s[i..], p) == [s[i]] + Filter(s[i..][1..], p);
  }

  /** Position `k` of the filtered sequence holds `s[i]`, a kept element
      preceded by exactly `k` kept elements. */
  ghost predicate PlacedAt<T(!new)>(s: seq<T>, p: T -> bool, k: int, i: int)
  {
    0 <= i < |s| && p(s[i]) && |Filter(s[..i], p)| == k < |Filter(s, p)| && Filter(s, p)[k] == s[i]
  }

  /** Conversely, every position `k` of the result holds a kept element
      `s[i]` whose rank is `k`. */
  lemma {:induction false} FilterOrigin<T(!new)>(s: seq<T>, p: T -> bool, k: int)
    requires 0 <= k < |Filter(s, p)|
    ensures exists i :: PlacedAt(s, p, k, i)
  {
    var x, tail := s[0], s[1..];
    assert s == [x] + tail;
    FilterCons(x, tail, p);
    if p(x) && k == 0 {
      assert s[..0] == [];
      assert Filter(s[..0], p) == [];
      assert PlacedAt(s, p, k, 0);
    } else {
      var k' := if p(x) then k - 1 else k;
      FilterOrigin(tail, p, k');
      var i' :| PlacedAt(tail, p, k', i');
      var i := i' + 1;
      assert s[i] == tail[i'];
      assert s[..i] == [x] + tail[..i'];
      FilterCons(x, tail[..i'], p);
      assert |Filter(s[..i], p)| == k;
      assert Filter(s, p)[k] == Filter(tail, p)[k'];
      assert PlacedAt(s, p, k, i);
    }
  }

  /** Unfolding the filter at a first element. */
  lemma FilterCons<T(!new)>(x: T, t: seq<T>, p: T -> bool)
    ensures Filter([x] + t, p) == (if p(x) then [x] else []) + Filter(t, p)
  {
    assert ([x] + t)[0] == x;
    assert ([x] + t)[1..] == t;
  }

  /** Two predicates that agree on every element of `s` filter it alike. */
  lemma {:induction false} FilterCongruent<T(!new)>(s: seq<T>, p: T -> bool, q: T -> bool)
    requires forall x :: x in s ==> p(x) == q(x)
    ensures Filter(s, p) == Filter(s, q)
  {
    if s != [] {
      assert s[0] in s;
      assert forall x :: x in s[1..] ==> x in s;
      FilterCongruent(s[1..], p, q);
    }
  }

  /** Filtering twice is filtering once by the conjunction. */
  lemma {:induction false} FilterFilter<T(!new)>(s: seq<T>, p: T -> bool, q: T -> bool, pq: T -> bool)
    requires forall x :: pq(x) == (p(x) && q(x))
    ensures Filter(Filter(s, p), q) == Filter(s, pq)
  {
    if s != [] {
      var x, tail := s[0], s[1..];
      assert s == [x] + tail;
      FilterCons(x, tail, p);
      FilterCons(x, tail, pq);
      FilterFilter(tail, p, q, pq);
      if p(x) {
        assert Filter(s, p) == [x] + Filter(tail, p);
        FilterCons(x, Filter(tail, p), q);
        assert pq(x) == q(x);
      } else {
        assert Filter(s, p) == Filter(tail, p);
        assert !pq(x);
      }
    }
  }

  /** A filter keeps everything when the predicate holds throughout, and
      nothing when it holds nowhere. */
  lemma {:induction false} FilterAllOrNone<T(!new)>(s: seq<T>, p: T -> bool)
    ensures (forall x :: x in s ==> p(x)) ==> Filter(s, p) == s
    ensures (forall x :: x in s ==> !p(x)) ==> Filter(s, p) == []
  {
    if s != [] {
      assert s[0] in s;
      assert forall x :: x in s[1..] ==> x in s;
      FilterAllOrNone(s[1..], p);
      assert s == [s[0]] + s[1..];
    }
  }
}
