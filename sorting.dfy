/** `Array.prototype.sort()` with no comparator, on strings: ascending in the order `Strings.Below`. */
module Sorting {
  import opened Strings

  /** Ascending, equal neighbours allowed. */
  predicate Sorted(s: seq<string>)
  {
    forall i, j :: 0 <= i < j < |s| ==> s[i] == s[j] || Below(s[i], s[j])
  }

  /** Ascending with no two equal elements. */
  predicate StrictlySorted(s: seq<string>)
  {
    forall i, j :: 0 <= i < j < |s| ==> Below(s[i], s[j])
  }

  /** Inserts `x` into a sorted sequence before the first element it is below. */
  function Insert(x: string, s: seq<string>): (r: seq<string>)
    requires Sorted(s)
    ensures multiset(r) == multiset(s) + multiset{x}
    ensures Sorted(r)
    ensures StrictlySorted(s) && x !in s ==> StrictlySorted(r)
  {
    if |s| == 0 then [x]
    else if Below(x, s[0]) then
      InsertFrontSorted(x, s);
      [x] + s
    else
      SortedTail(s, x);
      var rest := Insert(x, s[1..]);
      BelowTotal(x, s[0]);
      InsertBehindHead(x, s, rest);
      [s[0]] + rest
  }

  /** The tail of a sorted sequence is sorted, strictly so when the whole is, and misses what the whole misses. */
  lemma SortedTail(s: seq<string>, x: string)
    requires Sorted(s) && |s| > 0
    ensures Sorted(s[1..])
    ensures StrictlySorted(s) && x !in s ==> StrictlySorted(s[1..]) && x !in s[1..]
  {
    forall i, j | 0 <= i < j < |s[1..]| ensures s[1..][i] == s[i + 1] && s[1..][j] == s[j + 1] {
    }
  }

  lemma InsertFrontSorted(x: string, s: seq<string>)
    requires Sorted(s) && |s| > 0 && Below(x, s[0])
    ensures StrictlySorted(s) ==> StrictlySorted([x] + s)
    ensures Sorted([x] + s)
  {
    forall j | 0 < j < |s| ensures Below(x, s[j]) {
      if s[0] != s[j] {
        BelowTransitive(x, s[0], s[j]);
      }
    }
  }

  lemma InsertBehindHead(x: string, s: seq<string>, rest: seq<string>)
    requires Sorted(s) && |s| > 0 && (x == s[0] || Below(s[0], x))
    requires multiset(rest) == multiset(s[1..]) + multiset{x}
    requires Sorted(rest)
    requires StrictlySorted(s) && x !in s ==> StrictlySorted(rest)
    ensures Sorted([s[0]] + rest)
    ensures StrictlySorted(s) && x !in s ==> StrictlySorted([s[0]] + rest)
    ensures multiset([s[0]] + rest) == multiset(s) + multiset{x}
  {
    assert s == [s[0]] + s[1..];
    FromTailOrInserted(x, s[1..], rest);
    HeadBelowTail(s);
    ConsSorted(s[0], rest);
    if StrictlySorted(s) && x !in s {
      assert x != s[0];
      ConsStrictlySorted(s[0], rest);
    }
  }

  /** Putting in front an element at or below all others keeps a sequence sorted. */
  lemma ConsSorted(h: string, rest: seq<string>)
    requires Sorted(rest)
    requires forall j :: 0 <= j < |rest| ==> h == rest[j] || Below(h, rest[j])
    ensures Sorted([h] + rest)
  {
    var t := [h] + rest;
    forall i, j | 0 <= i < j < |t| ensures t[i] == t[j] || Below(t[i], t[j]) {
      assert t[j] == rest[j - 1];
      if i > 0 {
        assert t[i] == rest[i - 1];
      }
    }
  }

  /** Putting in front an element strictly below all others keeps a sequence strictly sorted. */
  lemma ConsStrictlySorted(h: string, rest: seq<string>)
    requires StrictlySorted(rest)
    requires forall j :: 0 <= j < |rest| ==> Below(h, rest[j])
    ensures StrictlySorted([h] + rest)
  {
    var t := [h] + rest;
    forall i, j | 0 <= i < j < |t| ensures Below(t[i], t[j]) {
      assert t[j] == rest[j - 1];
      if i > 0 {
        assert t[i] == rest[i - 1];
      }
    }
  }

  /** Every element of a permutation of `tail + [x]` is `x` or an element of `tail`. */
  lemma FromTailOrInserted(x: string, tail: seq<string>, rest: seq<string>)
    requires multiset(rest) == multiset(tail) + multiset{x}
    ensures forall j :: 0 <= j < |rest| ==> rest[j] == x || rest[j] in tail
  {
    forall j | 0 <= j < |rest| ensures rest[j] == x || rest[j] in tail {
      assert rest[j] in multiset(rest);
      if rest[j] != x {
        assert rest[j] in multiset(tail);
      }
    }
  }

  /** The head of a sorted sequence is at or below every later element, strictly below when strictly sorted. */
  lemma HeadBelowTail(s: seq<string>)
    requires Sorted(s) && |s| > 0
    ensures forall v :: v in s[1..] ==> s[0] == v || Below(s[0], v)
    ensures StrictlySorted(s) ==> forall v :: v in s[1..] ==> Below(s[0], v)
  {
    forall v | v in s[1..] ensures s[0] == v || Below(s[0], v) {
      var k :| 0 <= k < |s[1..]| && s[1..][k] == v;
      assert s[k + 1] == v;
    }
    if StrictlySorted(s) {
      forall v | v in s[1..] ensures Below(s[0], v) {
        var k :| 0 <= k < |s[1..]| && s[1..][k] == v;
        assert s[k + 1] == v;
      }
    }
  }

  /** Insertion sort: a sorted permutation of `s`; strictly sorted when `s` has no repeats. */
  function Sort(s: seq<string>): (r: seq<string>)
    ensures multiset(r) == multiset(s)
    ensures Sorted(r)
    ensures (forall i, j :: 0 <= i < j < |s| ==> s[i] != s[j]) ==> StrictlySorted(r)
  {
    if |s| == 0 then []
    else
      var rest := Sort(s[1..]);
      assert s == [s[0]] + s[1..];
      TailWithoutRepeats(s, rest);
      Insert(s[0], rest)
  }

  /** Without repeats in `s`, its tail has none, and the head is not in a permutation of the tail. */
  lemma TailWithoutRepeats(s: seq<string>, rest: seq<string>)
    requires |s| > 0 && multiset(rest) == multiset(s[1..])
    ensures (forall i, j :: 0 <= i < j < |s| ==> s[i] != s[j]) ==>
      (forall i, j :: 0 <= i < j < |s[1..]| ==> s[1..][i] != s[1..][j]) && s[0] !in rest
  {
    if forall i, j :: 0 <= i < j < |s| ==> s[i] != s[j] {
      forall i, j | 0 <= i < j < |s[1..]| ensures s[1..][i] != s[1..][j] {
        assert s[1..][i] == s[i + 1] && s[1..][j] == s[j + 1];
      }
      forall k | 0 <= k < |s[1..]| ensures s[1..][k] != s[0] {
        assert s[1..][k] == s[k + 1];
      }
      assert s[0] !in multiset(s[1..]);
    }
  }
}
