/**
 * What it means for a buffer of readings to be sorted, and a reference sort
 * (insertion sort on sequences) that the in-place heap sort is proved equal to.
 */
module Sorting {

  /** Non-decreasing order. */
  ghost predicate Sorted(s: seq<int>)
  {
    forall i, j :: 0 <= i <= j < |s| ==> s[i] <= s[j]
  }

  /** Inserts x into a sorted sequence. */
  function Insert(x: int, s: seq<int>): (r: seq<int>)
    requires Sorted(s)
    ensures Sorted(r)
    ensures multiset(r) == multiset(s) + multiset{x}
  {
    if s == [] then [x]
    else if x <= s[0] then
      HeadIsLeast(s);
      ConsSorted(x, s);
      [x] + s
    else
      SortedTail(s);
      var tail := Insert(x, s[1..]);
      assert s == [s[0]] + s[1..];
      HeadBoundsRest(s, x);
      LowerBoundCarries(tail, s[1..] + [x], s[0]);
      ConsSorted(s[0], tail);
      [s[0]] + tail
  }

  /** The head of a sorted sequence is at most each of its elements. */
  lemma HeadIsLeast(s: seq<int>)
    requires Sorted(s) && s != []
    ensures forall k :: 0 <= k < |s| ==> s[0] <= s[k]
  {
  }

  /** The head of a sorted sequence bounds its tail and anything above the head. */
  lemma HeadBoundsRest(s: seq<int>, x: int)
    requires Sorted(s) && s != [] && s[0] <= x
    ensures forall k :: 0 <= k < |s[1..] + [x]| ==> s[0] <= (s[1..] + [x])[k]
  {
    var b := s[1..] + [x];
    forall k | 0 <= k < |b|
      ensures s[0] <= b[k]
    {
      if k < |s| - 1 {
        assert b[k] == s[k + 1];
      }
    }
  }

  /** A sorted sequence stays sorted when a lower bound is put in front of it. */
  lemma ConsSorted(x: int, s: seq<int>)
    requires Sorted(s)
    requires forall k :: 0 <= k < |s| ==> x <= s[k]
    ensures Sorted([x] + s)
  {
    var r := [x] + s;
    forall i, j | 0 <= i <= j < |r|
      ensures r[i] <= r[j]
    {
      if i > 0 {
        assert r[i] == s[i - 1] && r[j] == s[j - 1];
      } else {
        assert r[i] == x;
      }
    }
  }

  /** The reference sort: the sorted rearrangement of s. */
  function Sort(s: seq<int>): (r: seq<int>)
    ensures Sorted(r)
    ensures multiset(r) == multiset(s)
  {
    if s == [] then []
    else
      assert s == [s[0]] + s[1..];
      Insert(s[0], Sort(s[1..]))
  }

  /** There is only one sorted arrangement of a multiset of integers. */
  lemma {:induction false} SortedPermutationUnique(a: seq<int>, b: seq<int>)
    requires Sorted(a) && Sorted(b)
    requires multiset(a) == multiset(b)
    ensures a == b
  {
    if a == [] {
      assert |multiset(b)| == 0;
    } else {
      SameHeads(a, b);
      SameTails(a, b);
      SortedTail(a);
      SortedTail(b);
      SortedPermutationUnique(a[1..], b[1..]);
      HeadAndTail(a, b);
    }
  }

  /** Two sorted rearrangements of each other start with the same element. */
  lemma SameHeads(a: seq<int>, b: seq<int>)
    requires Sorted(a) && Sorted(b) && a != []
    requires multiset(a) == multiset(b)
    ensures b != [] && a[0] == b[0]
  {
    assert a[0] in a;
    SortedHeadIsLeast(b, a[0]);
    assert b[0] in b;
    SortedHeadIsLeast(a, b[0]);
  }

  /** Removing equal heads from two rearrangements of each other leaves rearrangements of each other. */
  lemma SameTails(a: seq<int>, b: seq<int>)
    requires a != [] && b != [] && a[0] == b[0]
    requires multiset(a) == multiset(b)
    ensures multiset(a[1..]) == multiset(b[1..])
  {
    assert a == [a[0]] + a[1..];
    assert b == [b[0]] + b[1..];
    assert multiset(a[1..]) == multiset(a) - multiset{a[0]};
    assert multiset(b[1..]) == multiset(b) - multiset{b[0]};
  }

  /** Sequences with the same head and the same tail are equal. */
  lemma HeadAndTail(a: seq<int>, b: seq<int>)
    requires a != [] && b != [] && a[0] == b[0] && a[1..] == b[1..]
    ensures a == b
  {
    assert a == [a[0]] + a[1..];
    assert b == [b[0]] + b[1..];
  }

  /** Dropping the head of a sorted sequence leaves it sorted. */
  lemma SortedTail(a: seq<int>)
    requires Sorted(a) && a != []
    ensures Sorted(a[1..])
  {
    forall i, j | 0 <= i <= j < |a| - 1
      ensures a[1..][i] <= a[1..][j]
    {
      assert a[1..][i] == a[i + 1] && a[1..][j] == a[j + 1];
    }
  }

  /** The head of a sorted sequence is at most each of its elements. */
  lemma SortedHeadIsLeast(a: seq<int>, x: int)
    requires Sorted(a) && x in multiset(a)
    ensures a != [] && a[0] <= x
  {
    assert x in a;
    var i :| 0 <= i < |a| && a[i] == x;
  }

  /** Any sorted permutation of s is Sort(s). */
  lemma SortIsTheSortedPermutation(s: seq<int>, t: seq<int>)
    requires Sorted(t) && multiset(t) == multiset(s)
    ensures t == Sort(s)
  {
    SortedPermutationUnique(t, Sort(s));
  }

  /** Sorting leaves a buffer of at most one element as it is. */
  lemma SortShort(s: seq<int>)
    requires |s| <= 1
    ensures Sort(s) == s
  {
  }

  /** Splits the multiset of a sequence at k. */
  lemma MultisetSplit(s: seq<int>, k: int)
    requires 0 <= k <= |s|
    ensures multiset(s) == multiset(s[..k]) + multiset(s[k..])
  {
    assert s == s[..k] + s[k..];
  }

  /** A rearrangement that keeps s[k..] in place keeps the multiset of s[..k]. */
  lemma PrefixMultiset(a: seq<int>, b: seq<int>, k: int)
    requires |a| == |b| && 0 <= k <= |a|
    requires multiset(a) == multiset(b)
    requires forall i :: k <= i < |a| ==> a[i] == b[i]
    ensures multiset(a[..k]) == multiset(b[..k])
  {
    assert a[k..] == b[k..];
    MultisetSplit(a, k);
    MultisetSplit(b, k);
    assert multiset(a[..k]) == multiset(a) - multiset(a[k..]);
    assert multiset(b[..k]) == multiset(b) - multiset(b[k..]);
  }

  /** A lower bound of every element carries over to a rearrangement. */
  lemma LowerBoundCarries(a: seq<int>, b: seq<int>, y: int)
    requires multiset(a) == multiset(b)
    requires forall i :: 0 <= i < |b| ==> y <= b[i]
    ensures forall i :: 0 <= i < |a| ==> y <= a[i]
  {
    forall i | 0 <= i < |a|
      ensures y <= a[i]
    {
      assert a[i] in multiset(b);
    }
  }

  /** An upper bound of every element carries over to a rearrangement. */
  lemma BoundCarries(a: seq<int>, b: seq<int>, y: int)
    requires multiset(a) == multiset(b)
    requires forall i :: 0 <= i < |b| ==> b[i] <= y
    ensures forall i :: 0 <= i < |a| ==> a[i] <= y
  {
    forall i | 0 <= i < |a|
      ensures a[i] <= y
    {
      assert a[i] in multiset(b);
    }
  }
}
