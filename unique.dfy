/**
 * `[...new Set(xs)]`: the distinct elements of a sequence, each at the place
 * of its first occurrence (a JavaScript `Set` iterates in insertion order).
 */
module Unique {

  /** The elements of `s` without repeats, in order of first occurrence. */
  function Distinct<T(==)>(s: seq<T>): (r: seq<T>)
    ensures forall i, j :: 0 <= i < j < |r| ==> r[i] != r[j]
    ensures forall i :: 0 <= i < |r| ==> r[i] in s
    ensures forall i :: 0 <= i < |s| ==> s[i] in r
    ensures |r| <= |s|
    decreases |s|
  {
    if |s| == 0 then []
    else
      var front := Distinct(s[..|s| - 1]);
      if s[|s| - 1] in s[..|s| - 1] then front else front + [s[|s| - 1]]
  }

  /** The index of the first occurrence of `x` in `s`. */
  function FirstIndex<T(==)>(s: seq<T>, x: T): (i: nat)
    requires x in s
    ensures i < |s| && s[i] == x && x !in s[..i]
  {
    if s[0] == x then 0 else 1 + FirstIndex(s[1..], x)
  }

  lemma {:induction false} FirstIndexInPrefix<T>(p: seq<T>, q: seq<T>, x: T)
    requires x in p
    ensures FirstIndex(p + q, x) == FirstIndex(p, x)
  {
    var i := FirstIndex(p, x);
    var k := FirstIndex(p + q, x);
    assert (p + q)[..i] == p[..i];
    assert (p + q)[i] == x;
  }

  /** `Distinct` lists its elements in the order of their first occurrence in `s`. */
  lemma {:induction false} DistinctKeepsFirstOccurrenceOrder<T>(s: seq<T>, i: nat, j: nat)
    requires i < j < |Distinct(s)|
    ensures FirstIndex(s, Distinct(s)[i]) < FirstIndex(s, Distinct(s)[j])
    decreases |s|
  {
    var n := |s|;
    var p, x := s[..n - 1], s[n - 1];
    assert s == p + [x];
    var d := Distinct(p);
    if x in p {
      DistinctKeepsFirstOccurrenceOrder(p, i, j);
      FirstIndexInPrefix(p, [x], d[i]);
      FirstIndexInPrefix(p, [x], d[j]);
    } else if j < |d| {
      DistinctKeepsFirstOccurrenceOrder(p, i, j);
      FirstIndexInPrefix(p, [x], d[i]);
      FirstIndexInPrefix(p, [x], d[j]);
    } else {
      FirstIndexInPrefix(p, [x], d[i]);
    }
  }

  /** `Distinct(a)` is a prefix of `Distinct(a + b)`: what comes from `a` comes first. */
  lemma {:induction false} DistinctAppendPrefix<T>(a: seq<T>, b: seq<T>)
    ensures Distinct(a) <= Distinct(a + b)
    decreases |b|
  {
    if |b| == 0 {
      assert a + b == a;
    } else {
      var b' := b[..|b| - 1];
      DistinctAppendPrefix(a, b');
      assert (a + b)[..|a + b| - 1] == a + b';
    }
  }

  /** The distinct elements of a prefix are a prefix of the distinct elements of the whole. */
  lemma DistinctOfPrefix<T>(a: seq<T>, b: seq<T>)
    requires a <= b
    ensures Distinct(a) <= Distinct(b)
  {
    assert b == a + b[|a|..];
    DistinctAppendPrefix(a, b[|a|..]);
  }
}
