/** The library's stable sort by an integer key: an ordered permutation in which
    elements with equal keys keep their order, unique when the keys are distinct. */
module Sorting {

  ghost predicate SortedBy<T>(s: seq<T>, key: T -> int) {
    forall i, j :: 0 <= i < j < |s| ==> key(s[i]) <= key(s[j])
  }

  // x goes behind every element whose key is not larger
  function InsertBy<T>(s: seq<T>, x: T, key: T -> int): (r: seq<T>)
    ensures |r| == |s| + 1
  {
    if s == [] || key(s[|s| - 1]) <= key(x) then s + [x]
    else InsertBy(s[..|s| - 1], x, key) + [s[|s| - 1]]
  }

  function SortBy<T>(s: seq<T>, key: T -> int): (r: seq<T>)
    ensures |r| == |s|
  {
    if s == [] then [] else InsertBy(SortBy(s[..|s| - 1], key), s[|s| - 1], key)
  }

  lemma {:induction false} InsertMultiset<T>(s: seq<T>, x: T, key: T -> int)
    ensures multiset(InsertBy(s, x, key)) == multiset(s) + multiset{x}
  {
    if s == [] || key(s[|s| - 1]) <= key(x) {
    } else {
      InsertMultiset(s[..|s| - 1], x, key);
      assert s == s[..|s| - 1] + [s[|s| - 1]];
    }
  }

  // taking one element out
  lemma WithoutAt<T>(s: seq<T>, i: nat)
    requires i < |s|
    ensures multiset(s[..i] + s[i + 1..]) == multiset(s) - multiset{s[i]}
  {
    assert s == s[..i] + [s[i]] + s[i + 1..];
    assert multiset(s) == multiset(s[..i]) + multiset{s[i]} + multiset(s[i + 1..]);
  }

  // an element of a permutation of s has an index in s
  lemma IndexIn<T>(r: seq<T>, s: seq<T>, i: nat) returns (k: nat)
    requires multiset(r) == multiset(s) && i < |r|
    ensures k < |s| && s[k] == r[i]
  {
    assert r[i] in multiset(s);
    k :| 0 <= k < |s| && s[k] == r[i];
  }

  lemma SnocSorted<T>(s: seq<T>, x: T, key: T -> int)
    requires SortedBy(s, key) && forall i :: 0 <= i < |s| ==> key(s[i]) <= key(x)
    ensures SortedBy(s + [x], key)
  {
  }

  lemma {:induction false} InsertSorted<T>(s: seq<T>, x: T, key: T -> int)
    requires SortedBy(s, key)
    ensures SortedBy(InsertBy(s, x, key), key)
  {
    if s == [] || key(s[|s| - 1]) <= key(x) {
      SnocSorted(s, x, key);
    } else {
      var front, last := s[..|s| - 1], s[|s| - 1];
      InsertSorted(front, x, key);
      InsertMultiset(front, x, key);
      var r := InsertBy(front, x, key);
      assert multiset(front + [x]) == multiset(front) + multiset{x};
      forall i | 0 <= i < |r|
        ensures key(r[i]) <= key(last)
      {
        var k := IndexIn(r, front + [x], i);
        if k < |front| { assert front[k] == s[k]; }
      }
      SnocSorted(r, last, key);
    }
  }

  /** Sorting yields an ordered permutation. */
  lemma {:induction false} SortSorts<T>(s: seq<T>, key: T -> int)
    ensures SortedBy(SortBy(s, key), key)
    ensures multiset(SortBy(s, key)) == multiset(s)
  {
    if s != [] {
      SortSorts(s[..|s| - 1], key);
      InsertSorted(SortBy(s[..|s| - 1], key), s[|s| - 1], key);
      InsertMultiset(SortBy(s[..|s| - 1], key), s[|s| - 1], key);
      assert s == s[..|s| - 1] + [s[|s| - 1]];
    }
  }

  // ordered input stays as it is: the sort is stable
  lemma {:induction false} SortIdentity<T>(s: seq<T>, key: T -> int)
    requires SortedBy(s, key)
    ensures SortBy(s, key) == s
  {
    if s != [] {
      var front, last := s[..|s| - 1], s[|s| - 1];
      SortIdentity(front, key);
      if front != [] { assert key(s[|s| - 2]) <= key(last); }
      assert s == front + [last];
    }
  }

  // the elements with one key, in their order
  function WithKey<T>(s: seq<T>, key: T -> int, k: int): seq<T> {
    if s == [] then []
    else WithKey(s[..|s| - 1], key, k) + if key(s[|s| - 1]) == k then [s[|s| - 1]] else []
  }

  lemma {:induction false} InsertStable<T>(s: seq<T>, x: T, key: T -> int, k: int)
    requires SortedBy(s, key)
    ensures WithKey(InsertBy(s, x, key), key, k) == WithKey(s, key, k) + if key(x) == k then [x] else []
  {
    if s == [] || key(s[|s| - 1]) <= key(x) {
      assert (s + [x])[..|s|] == s;
    } else {
      var front, last := s[..|s| - 1], s[|s| - 1];
      InsertStable(front, x, key, k);
      var r := InsertBy(front, x, key);
      assert (r + [last])[..|r|] == r;
    }
  }

  /** The sort is stable: elements with equal keys keep their order. */
  lemma {:induction false} SortStable<T>(s: seq<T>, key: T -> int, k: int)
    ensures WithKey(SortBy(s, key), key, k) == WithKey(s, key, k)
  {
    if s != [] {
      SortStable(s[..|s| - 1], key, k);
      SortSorts(s[..|s| - 1], key);
      InsertStable(SortBy(s[..|s| - 1], key), s[|s| - 1], key, k);
    }
  }

  ghost predicate DistinctKeys<T>(s: seq<T>, key: T -> int) {
    forall i, j :: 0 <= i < j < |s| ==> key(s[i]) != key(s[j])
  }

  // what is left after a common prefix is again a permutation
  lemma SuffixMultiset<T>(a: seq<T>, b: seq<T>, k: nat)
    requires multiset(a) == multiset(b) && k <= |a| && k <= |b| && a[..k] == b[..k]
    ensures multiset(a[k..]) == multiset(b[k..])
  {
    assert a == a[..k] + a[k..] && b == b[..k] + b[k..];
    assert multiset(a[k..]) == multiset(a) - multiset(a[..k]);
    assert multiset(b[k..]) == multiset(b) - multiset(b[..k]);
  }

  // an element of b[k..] sits at or after k in a
  lemma LaterIn<T>(a: seq<T>, b: seq<T>, k: nat) returns (j: nat)
    requires k < |a| && k < |b| && multiset(a[k..]) == multiset(b[k..])
    ensures k <= j < |a| && a[j] == b[k]
  {
    var m := IndexIn(b[k..], a[k..], 0);
    j := k + m;
  }

  lemma SortedPair<T>(s: seq<T>, key: T -> int, i: nat, j: nat)
    requires SortedBy(s, key) && i <= j < |s|
    ensures key(s[i]) <= key(s[j])
    ensures DistinctKeys(s, key) && i < j ==> key(s[i]) < key(s[j])
  {
  }

  // after a common prefix the next elements agree
  lemma NextAgrees<T>(a: seq<T>, b: seq<T>, key: T -> int, k: nat)
    requires SortedBy(a, key) && SortedBy(b, key) && multiset(a) == multiset(b) && DistinctKeys(b, key)
    requires k < |a| && k < |b| && a[..k] == b[..k]
    ensures a[k] == b[k]
  {
    SuffixMultiset(a, b, k);
    var j := LaterIn(a, b, k);
    var i := LaterIn(b, a, k);
    SortedPair(a, key, k, j);
    SortedPair(b, key, k, i);
  }

  lemma {:induction false} CommonPrefix<T>(a: seq<T>, b: seq<T>, key: T -> int, k: nat)
    requires SortedBy(a, key) && SortedBy(b, key) && multiset(a) == multiset(b) && DistinctKeys(b, key)
    requires k <= |a| == |b|
    ensures a[..k] == b[..k]
  {
    if k > 0 {
      CommonPrefix(a, b, key, k - 1);
      NextAgrees(a, b, key, k - 1);
      assert a[..k] == a[..k - 1] + [a[k - 1]] && b[..k] == b[..k - 1] + [b[k - 1]];
    }
  }

  /** With distinct keys the ordered permutation is unique. */
  lemma SortedUnique<T>(a: seq<T>, b: seq<T>, key: T -> int)
    requires SortedBy(a, key) && SortedBy(b, key) && multiset(a) == multiset(b) && DistinctKeys(b, key)
    ensures a == b
  {
    assert |a| == |multiset(a)| == |multiset(b)| == |b|;
    CommonPrefix(a, b, key, |a|);
    assert a[..|a|] == a && b[..|b|] == b;
  }

  // an ordered list with distinct keys is what any of its permutations sorts to
  lemma SortOf<T>(s: seq<T>, sorted: seq<T>, key: T -> int)
    requires multiset(s) == multiset(sorted) && SortedBy(sorted, key)
    requires DistinctKeys(sorted, key)
    ensures SortBy(s, key) == sorted
  {
    SortSorts(s, key);
    SortedUnique(SortBy(s, key), sorted, key);
  }

  // sorting keeps distinct keys distinct
  lemma {:induction false} InsertDistinct<T>(s: seq<T>, x: T, key: T -> int)
    requires DistinctKeys(s, key) && forall i :: 0 <= i < |s| ==> key(s[i]) != key(x)
    ensures DistinctKeys(InsertBy(s, x, key), key)
  {
    if s == [] || key(s[|s| - 1]) <= key(x) {
    } else {
      var front, last := s[..|s| - 1], s[|s| - 1];
      InsertDistinct(front, x, key);
      InsertMultiset(front, x, key);
      assert multiset(front + [x]) == multiset(front) + multiset{x};
      forall i | 0 <= i < |InsertBy(front, x, key)|
        ensures key(InsertBy(front, x, key)[i]) != key(last)
      {
        var k := IndexIn(InsertBy(front, x, key), front + [x], i);
        if k < |front| { assert front[k] == s[k]; }
      }
    }
  }

  lemma {:induction false} SortDistinct<T>(s: seq<T>, key: T -> int)
    requires DistinctKeys(s, key)
    ensures DistinctKeys(SortBy(s, key), key)
  {
    if s != [] {
      var front, last := s[..|s| - 1], s[|s| - 1];
      SortDistinct(front, key);
      SortSorts(front, key);
      forall i | 0 <= i < |SortBy(front, key)|
        ensures key(SortBy(front, key)[i]) != key(last)
      {
        var k := IndexIn(SortBy(front, key), front, i);
        assert s[k] == front[k];
      }
      InsertDistinct(SortBy(front, key), last, key);
    }
  }

  function Rev<T>(s: seq<T>): (r: seq<T>)
    ensures |r| == |s|
  {
    seq(|s|, i requires 0 <= i < |s| => s[|s| - 1 - i])
  }

  lemma {:induction false} RevMultiset<T>(s: seq<T>)
    ensures multiset(Rev(s)) == multiset(s)
  {
    if s != [] {
      RevMultiset(s[1..]);
      assert Rev(s) == Rev(s[1..]) + [s[0]];
      assert s == [s[0]] + s[1..];
    }
  }
}
