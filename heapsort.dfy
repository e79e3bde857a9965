/**
 * The in-place binary-heap sort of temp.c (`swap` and `heapsort`).
 *
 * The source shifts its pointer (`keys -= 1`) so that heap positions are
 * 1-based: position i is the array element keys[i - 1], the parent of
 * position i is i / 2 and its children are 2i and 2i + 1. The methods below
 * keep the source's 1-based variables (`last`, `n`, `parent`, `max`, `left`,
 * `right`) and write every access as keys[i - 1]. The heap predicates are
 * stated over the 0-based indices j of a sequence, whose parent is
 * Parent(j) == (j - 1) / 2: the same relation shifted by one.
 */
module BinaryHeap {
  import opened Sorting

  /** The 0-based index of the parent of 0-based index j. */
  function Parent(j: int): (p: int)
    ensures j > 0 ==> 0 <= p < j
  {
    (j - 1) / 2
  }

  /** s with the elements at n and m exchanged. */
  function Swapped(s: seq<int>, n: int, m: int): (r: seq<int>)
    requires 0 <= n < |s| && 0 <= m < |s|
    ensures |r| == |s|
  {
    s[n := s[m]][m := s[n]]
  }

  /** Exchanging two elements rearranges the sequence and moves nothing else. */
  lemma SwappedIsPermutation(s: seq<int>, n: int, m: int)
    requires 0 <= n < |s| && 0 <= m < |s|
    ensures multiset(Swapped(s, n, m)) == multiset(s)
    ensures Swapped(s, n, m)[n] == s[m] && Swapped(s, n, m)[m] == s[n]
    ensures forall k :: 0 <= k < |s| && k != n && k != m ==> Swapped(s, n, m)[k] == s[k]
  {
  }

  /** `swap`: exchanges two elements of the buffer it is given and nothing else. */
  method Swap(keys: array<int>, n: int, m: int)
    requires 0 <= n < keys.Length && 0 <= m < keys.Length
    modifies keys
    ensures keys[..] == Swapped(old(keys[..]), n, m)
  {
    var tmp := keys[n];
    keys[n] := keys[m];
    keys[m] := tmp;
  }

  /** a and b agree from index lo on. */
  ghost predicate SameFrom(a: seq<int>, b: seq<int>, lo: int)
  {
    |a| == |b| && forall k :: 0 <= k < |a| && lo <= k ==> a[k] == b[k]
  }

  /** s[lo..hi) is in ascending order. */
  ghost predicate SortedRange(s: seq<int>, lo: int, hi: int)
    requires 0 <= lo <= hi <= |s|
  {
    forall i, j :: lo <= i <= j < hi ==> s[i] <= s[j]
  }

  /** Which link of a heap may be broken: none, or the links around a rising or a sinking element. */
  datatype Fault = Intact | RisingAt(h: int) | SinkingAt(h: int)

  /**
   * The link between 0-based index j and its parent holds, as far as the
   * fault f demands: a rising element h may exceed its parent, a sinking
   * element h may be below its children, and in both cases h's parent
   * bounds h's children.
   */
  ghost predicate LinkHolds(s: seq<int>, j: int, f: Fault)
    requires 1 <= j < |s|
  {
    match f
    case Intact => s[Parent(j)] >= s[j]
    case RisingAt(h) =>
      && (j != h ==> s[Parent(j)] >= s[j])
      && (0 < h && Parent(j) == h ==> s[Parent(h)] >= s[j])
    case SinkingAt(h) =>
      && (Parent(j) != h ==> s[Parent(j)] >= s[j])
      && (0 < h && Parent(j) == h ==> s[Parent(h)] >= s[j])
  }

  /** Every link of s[..hi) holds as far as f demands. */
  ghost predicate Links(s: seq<int>, hi: int, f: Fault)
    requires 0 <= hi <= |s|
    decreases hi
  {
    hi <= 1 || (Links(s, hi - 1, f) && LinkHolds(s, hi - 1, f))
  }

  /** Links states its condition link by link. */
  lemma {:induction false} LinksEach(s: seq<int>, hi: int, f: Fault)
    requires 0 <= hi <= |s|
    ensures Links(s, hi, f) <==> forall j :: 1 <= j < hi ==> LinkHolds(s, j, f)
    decreases hi
  {
    if hi > 1 {
      LinksEach(s, hi - 1, f);
    }
  }

  /** Positions 1..hi of s form a max-heap: no element exceeds its parent. */
  ghost predicate Heap(s: seq<int>, hi: int)
    requires 0 <= hi <= |s|
  {
    Links(s, hi, Intact)
  }

  /**
   * The state inside a sift-up: positions 1..hi are a max-heap except that
   * the element at 0-based index h may exceed its parent; h's parent bounds
   * h's children.
   */
  ghost predicate HeapExceptUp(s: seq<int>, hi: int, h: int)
    requires 0 <= h < hi <= |s|
  {
    Links(s, hi, RisingAt(h))
  }

  /**
   * The state inside a sift-down: positions 1..hi are a max-heap except that
   * the element at 0-based index h may be below its children; h's parent
   * bounds h's children.
   */
  ghost predicate HeapExceptDown(s: seq<int>, hi: int, h: int)
    requires 0 <= h < hi <= |s|
  {
    Links(s, hi, SinkingAt(h))
  }

  /** Every element of a heap is bounded by each of its ancestors, hence by the root. */
  lemma {:induction false} RootBoundsElement(s: seq<int>, hi: int, j: int)
    requires 0 <= j < hi <= |s|
    requires Heap(s, hi)
    ensures s[j] <= s[0]
    decreases j
  {
    if j > 0 {
      LinksEach(s, hi, Intact);
      assert LinkHolds(s, j, Intact);
      RootBoundsElement(s, hi, Parent(j));
    }
  }

  /** The root of a heap is its maximum. */
  lemma HeapRootIsMax(s: seq<int>, hi: int)
    requires 0 <= hi <= |s|
    requires Heap(s, hi)
    ensures forall j :: 0 <= j < hi ==> s[j] <= s[0]
  {
    forall j | 0 <= j < hi
      ensures s[j] <= s[0]
    {
      RootBoundsElement(s, hi, j);
    }
  }

  /** Appending position `last` to the heap on 1..last-1 starts a sift-up there. */
  lemma SiftUpStart(s: seq<int>, last: int)
    requires 1 <= last <= |s|
    requires Heap(s, last - 1)
    ensures HeapExceptUp(s, last, last - 1)
  {
    var h := last - 1;
    LinksEach(s, h, Intact);
    LinksEach(s, last, RisingAt(h));
    forall j | 1 <= j < last
      ensures LinkHolds(s, j, RisingAt(h))
    {
      if j < last - 1 {
        assert LinkHolds(s, j, Intact);
      }
    }
  }

  /** One step of the sift-up: swapping h with a parent that is not greater moves the fault to the parent. */
  lemma SiftUpStep(s: seq<int>, hi: int, h: int)
    requires 0 < h < hi <= |s|
    requires HeapExceptUp(s, hi, h)
    requires s[Parent(h)] <= s[h]
    ensures HeapExceptUp(Swapped(s, Parent(h), h), hi, Parent(h))
  {
    var p := Parent(h);
    var t := Swapped(s, p, h);
    LinksEach(s, hi, RisingAt(h));
    LinksEach(t, hi, RisingAt(p));
    forall j | 1 <= j < hi
      ensures LinkHolds(t, j, RisingAt(p))
    {
      assert LinkHolds(s, j, RisingAt(h));
      if j != p {
        if j == h {
        } else if Parent(j) == h {
        } else if Parent(j) == p {
          assert t[p] == s[h] && t[j] == s[j];
        } else {
          assert t[Parent(j)] == s[Parent(j)] && t[j] == s[j];
        }
      }
      if 0 < p && Parent(j) == p {
        assert LinkHolds(s, p, RisingAt(h));
        assert Parent(p) != h && Parent(p) != p;
      }
    }
  }

  /** The sift-up ends with a heap once h is the root or its parent is strictly greater. */
  lemma SiftUpStop(s: seq<int>, hi: int, h: int)
    requires 0 <= h < hi <= |s|
    requires HeapExceptUp(s, hi, h)
    requires h == 0 || s[Parent(h)] > s[h]
    ensures Heap(s, hi)
  {
    LinksEach(s, hi, RisingAt(h));
    LinksEach(s, hi, Intact);
    forall j | 1 <= j < hi
      ensures LinkHolds(s, j, Intact)
    {
      assert LinkHolds(s, j, RisingAt(h));
    }
  }

  /** The children of 0-based index h are 2h + 1 and 2h + 2 (1-based: 2n and 2n + 1). */
  lemma ChildOf(h: int, j: int)
    requires 0 <= h && 1 <= j && Parent(j) == h
    ensures j == 2 * h + 1 || j == 2 * h + 2
  {
  }

  /** One step of the sift-down: swapping h with its larger, strictly greater child moves the fault to that child. */
  lemma SiftDownStep(s: seq<int>, hi: int, h: int, c: int)
    requires 0 <= h < c < hi <= |s|
    requires c == 2 * h + 1 || c == 2 * h + 2
    requires HeapExceptDown(s, hi, h)
    requires s[c] > s[h]
    requires 2 * h + 1 < hi ==> s[2 * h + 1] <= s[c]
    requires 2 * h + 2 < hi ==> s[2 * h + 2] <= s[c]
    ensures HeapExceptDown(Swapped(s, c, h), hi, c)
  {
    var t := Swapped(s, c, h);
    assert Parent(c) == h;
    LinksEach(s, hi, SinkingAt(h));
    LinksEach(t, hi, SinkingAt(c));
    forall j | 1 <= j < hi
      ensures LinkHolds(t, j, SinkingAt(c))
    {
      assert LinkHolds(s, j, SinkingAt(h));
      if Parent(j) != c {
        if j == c {
        } else if j == h {
          assert LinkHolds(s, c, SinkingAt(h));
        } else if Parent(j) == h {
          ChildOf(h, j);
          assert t[h] == s[c] && t[j] == s[j];
        } else {
          assert t[Parent(j)] == s[Parent(j)] && t[j] == s[j];
        }
      } else {
        ChildOf(c, j);
        assert t[j] == s[j] && t[h] == s[c];
      }
    }
  }

  /** The sift-down ends with a heap once no child of h is strictly greater than h. */
  lemma SiftDownStop(s: seq<int>, hi: int, h: int)
    requires 0 <= h < hi <= |s|
    requires HeapExceptDown(s, hi, h)
    requires 2 * h + 1 < hi ==> s[2 * h + 1] <= s[h]
    requires 2 * h + 2 < hi ==> s[2 * h + 2] <= s[h]
    ensures Heap(s, hi)
  {
    LinksEach(s, hi, SinkingAt(h));
    LinksEach(s, hi, Intact);
    forall j | 1 <= j < hi
      ensures LinkHolds(s, j, Intact)
    {
      assert LinkHolds(s, j, SinkingAt(h));
      if Parent(j) == h {
        ChildOf(h, j);
      }
    }
  }

  /**
   * The inner loop of the build phase (temp.c:100-108): the element at
   * position `last` moves up while its parent is not strictly greater, so
   * that positions 1..last become a max-heap.
   */
  method SiftUp(keys: array<int>, last: int)
    requires 1 <= last <= keys.Length
    requires Heap(keys[..], last - 1)
    modifies keys
    ensures Heap(keys[..], last)
    ensures multiset(keys[..]) == old(multiset(keys[..]))
    ensures SameFrom(keys[..], old(keys[..]), last)
  {
    ghost var orig := keys[..];
    SiftUpStart(orig, last);
    var n := last;
    while n > 1
      invariant 1 <= n <= last
      invariant HeapExceptUp(keys[..], last, n - 1)
      invariant multiset(keys[..]) == multiset(orig)
      invariant SameFrom(keys[..], orig, last)
    {
      ghost var s := keys[..];
      var parent := RiseStep(keys, last, n);
      if parent == n {
        return;
      }
      SwappedIsPermutation(s, parent - 1, n - 1);
      n := parent;
    }
    SiftUpStop(keys[..], last, 0);
  }

  /**
   * One pass of the sift-up loop body (temp.c:103-107): unless the parent
   * of n is strictly greater than n, the two are exchanged and the fault
   * moves to the parent; otherwise nothing changes and the heap is whole.
   */
  method RiseStep(keys: array<int>, last: int, n: int) returns (parent: int)
    requires 1 < n <= last <= keys.Length
    requires HeapExceptUp(keys[..], last, n - 1)
    modifies keys
    ensures parent == n ==> keys[..] == old(keys[..]) && Heap(keys[..], last)
    ensures parent != n ==> && parent == n / 2
                            && keys[..] == Swapped(old(keys[..]), parent - 1, n - 1)
                            && HeapExceptUp(keys[..], last, parent - 1)
  {
    ghost var s := keys[..];
    parent := n / 2;
    assert Parent(n - 1) == parent - 1;
    if keys[parent - 1] > keys[n - 1] {
      SiftUpStop(s, last, n - 1);
      return n;
    }
    SiftUpStep(s, last, n - 1);
    Swap(keys, parent - 1, n - 1);
  }

  /**
   * The inner loop of the extraction phase (temp.c:113-129): the element at
   * the root moves down to its larger child while that child is strictly
   * greater, so that positions 1..last become a max-heap again.
   */
  method SiftDown(keys: array<int>, last: int)
    requires 1 <= last <= keys.Length
    requires HeapExceptDown(keys[..], last, 0)
    modifies keys
    ensures Heap(keys[..], last)
    ensures multiset(keys[..]) == old(multiset(keys[..]))
    ensures SameFrom(keys[..], old(keys[..]), last)
  {
    ghost var orig := keys[..];
    var n := 1;
    while true
      invariant 1 <= n <= last
      invariant HeapExceptDown(keys[..], last, n - 1)
      invariant multiset(keys[..]) == multiset(orig)
      invariant SameFrom(keys[..], orig, last)
      decreases last - n
    {
      ghost var s := keys[..];
      var max := SinkStep(keys, last, n);
      if n == max {
        break;
      }
      SwappedIsPermutation(s, max - 1, n - 1);
      n := max;
    }
  }

  /**
   * One pass of the sift-down loop body (temp.c:115-128): when a child of n
   * is strictly greater than n, n is exchanged with the larger child and the
   * fault moves there; otherwise nothing changes and the heap is whole.
   */
  method SinkStep(keys: array<int>, last: int, n: int) returns (max: int)
    requires 1 <= n <= last <= keys.Length
    requires HeapExceptDown(keys[..], last, n - 1)
    modifies keys
    ensures max == n ==> keys[..] == old(keys[..]) && Heap(keys[..], last)
    ensures max != n ==> && n < max <= last
                         && keys[..] == Swapped(old(keys[..]), max - 1, n - 1)
                         && HeapExceptDown(keys[..], last, max - 1)
  {
    ghost var s := keys[..];
    max := LargestOfFamily(keys, last, n);
    if n == max {
      SiftDownStop(s, last, n - 1);
      return;
    }
    SiftDownStep(s, last, n - 1, max - 1);
    Swap(keys, max - 1, n - 1);
  }

  /**
   * The choice of temp.c:115-122: the 1-based position among n and its
   * children 2n and 2n + 1 (those not beyond `last`) holding the largest
   * element, preferring n, then the left child, on ties.
   */
  method LargestOfFamily(keys: array<int>, last: int, n: int) returns (max: int)
    requires 1 <= n <= last <= keys.Length
    ensures max == n || (max == 2 * n && max <= last) || (max == 2 * n + 1 && max <= last)
    ensures keys[max - 1] >= keys[n - 1]
    ensures 2 * n <= last ==> keys[max - 1] >= keys[2 * n - 1]
    ensures 2 * n + 1 <= last ==> keys[max - 1] >= keys[2 * n]
    ensures max != n ==> keys[max - 1] > keys[n - 1]
    ensures max == 2 * n + 1 ==> keys[2 * n] > keys[2 * n - 1]
  {
    max := n;
    var left := n * 2;
    var right := left + 1;
    if left <= last && keys[left - 1] > keys[max - 1] {
      max := left;
    }
    if right <= last && keys[right - 1] > keys[max - 1] {
      max := right;
    }
  }

  /**
   * `heapsort(keys, n_keys)` (temp.c:95-131): sorts keys[0..nKeys) in place
   * into the one sorted arrangement of its elements and touches nothing
   * beyond it.
   */
  method HeapSort(keys: array<int>, nKeys: nat)
    requires nKeys <= keys.Length
    modifies keys
    ensures keys[..nKeys] == Sort(old(keys[..nKeys]))
    ensures Sorted(keys[..nKeys])
    ensures multiset(keys[..nKeys]) == old(multiset(keys[..nKeys]))
    ensures keys[nKeys..] == old(keys[nKeys..])
    ensures nKeys <= 1 ==> keys[..] == old(keys[..])
  {
    ghost var input := keys[..];
    BuildHeap(keys, nKeys);
    ExtractAll(keys, nKeys);
    SortedArrangement(input, keys[..], nKeys);
    if nKeys <= 1 {
      SortShort(input[..nKeys]);
      SplitEqual(keys[..], input, nKeys);
    }
  }

  /**
   * The build phase of `heapsort` (temp.c:98-109): each position `last` in
   * turn joins the heap on positions 1..last-1 and sifts up, so that
   * positions 1..nKeys form a max-heap of the same elements.
   */
  method BuildHeap(keys: array<int>, nKeys: nat)
    requires nKeys <= keys.Length
    modifies keys
    ensures Heap(keys[..], nKeys)
    ensures multiset(keys[..]) == old(multiset(keys[..]))
    ensures SameFrom(keys[..], old(keys[..]), nKeys)
  {
    ghost var input := keys[..];
    var last := 1;
    while last <= nKeys
      invariant 1 <= last <= nKeys + 1
      invariant Heap(keys[..], last - 1)
      invariant multiset(keys[..]) == multiset(input)
      invariant SameFrom(keys[..], input, nKeys)
    {
      SiftUp(keys, last);
      last := last + 1;
    }
  }

  /**
   * The extraction phase of `heapsort` (temp.c:110-130): the root of the
   * heap on positions 1..last+1 is the largest remaining element and is
   * swapped to position last+1, in front of the larger elements already in
   * ascending order there, and the heap on positions 1..last is restored.
   */
  method ExtractAll(keys: array<int>, nKeys: nat)
    requires nKeys <= keys.Length
    requires Heap(keys[..], nKeys)
    modifies keys
    ensures Sorted(keys[..nKeys])
    ensures multiset(keys[..]) == old(multiset(keys[..]))
    ensures SameFrom(keys[..], old(keys[..]), nKeys)
  {
    ghost var input := keys[..];
    var last := nKeys - 1;
    while last >= 1
      invariant -1 <= last < nKeys
      invariant nKeys > 0 ==> last >= 0
      invariant Heap(keys[..], last + 1)
      invariant SortedRange(keys[..], last + 1, nKeys)
      invariant PrefixBelow(keys[..], last + 1, nKeys)
      invariant multiset(keys[..]) == multiset(input)
      invariant SameFrom(keys[..], input, nKeys)
    {
      ExtractStep(keys, nKeys, last);
      last := last - 1;
    }
    SortedFinish(keys[..], last + 1, nKeys);
  }

  /**
   * A sorted rearrangement of the first nKeys elements that leaves the rest
   * alone is the one sorted arrangement Sort of those elements.
   */
  lemma SortedArrangement(input: seq<int>, result: seq<int>, nKeys: int)
    requires 0 <= nKeys <= |input|
    requires multiset(result) == multiset(input)
    requires SameFrom(result, input, nKeys)
    requires Sorted(result[..nKeys])
    ensures result[..nKeys] == Sort(input[..nKeys])
    ensures multiset(result[..nKeys]) == multiset(input[..nKeys])
    ensures result[nKeys..] == input[nKeys..]
  {
    PrefixMultiset(result, input, nKeys);
    SortIsTheSortedPermutation(input[..nKeys], result[..nKeys]);
    assert result[nKeys..] == input[nKeys..];
  }

  /** Two sequences that agree before and from k agree. */
  lemma SplitEqual(a: seq<int>, b: seq<int>, k: int)
    requires 0 <= k <= |a| && |a| == |b|
    requires a[..k] == b[..k] && a[k..] == b[k..]
    ensures a == b
  {
    assert a == a[..k] + a[k..];
    assert b == b[..k] + b[k..];
  }

  /** Every element of s[0..mid) is at most every element of s[mid..hi). */
  ghost predicate PrefixBelow(s: seq<int>, mid: int, hi: int)
    requires 0 <= mid <= hi <= |s|
  {
    forall i, j :: 0 <= i < mid <= j < hi ==> s[i] <= s[j]
  }

  /** When the unsorted prefix has at most one element, the whole of s[..hi] is sorted. */
  lemma SortedFinish(s: seq<int>, mid: int, hi: int)
    requires 0 <= mid <= 1 && mid <= hi <= |s|
    requires SortedRange(s, mid, hi)
    requires PrefixBelow(s, mid, hi)
    ensures Sorted(s[..hi])
  {
  }

  /**
   * One iteration of the extraction loop (temp.c:112-129): swap(keys, 1,
   * last + 1) moves the root to the front of the sorted suffix, then the
   * sift-down restores the heap on positions 1..last.
   */
  method ExtractStep(keys: array<int>, nKeys: nat, last: int)
    requires 1 <= last < nKeys <= keys.Length
    requires Heap(keys[..], last + 1)
    requires SortedRange(keys[..], last + 1, nKeys)
    requires PrefixBelow(keys[..], last + 1, nKeys)
    modifies keys
    ensures Heap(keys[..], last)
    ensures SortedRange(keys[..], last, nKeys)
    ensures PrefixBelow(keys[..], last, nKeys)
    ensures multiset(keys[..]) == old(multiset(keys[..]))
    ensures SameFrom(keys[..], old(keys[..]), nKeys)
  {
    ghost var before := keys[..];
    HeapRootIsMax(before, last + 1);
    Swap(keys, 0, last);
    ghost var swapped := keys[..];
    SwappedIsPermutation(before, 0, last);
    RootOutIsDownHeap(before, last);
    SiftDown(keys, last);
    ghost var after := keys[..];
    ExtractInvariant(before, swapped, after, last, nKeys);
  }

  /** After the root is swapped to the last position of the heap, the shorter heap is faulty only at its root. */
  lemma RootOutIsDownHeap(s: seq<int>, last: int)
    requires 1 <= last < |s|
    requires Heap(s, last + 1)
    ensures HeapExceptDown(Swapped(s, 0, last), last, 0)
  {
    var t := Swapped(s, 0, last);
    LinksEach(s, last + 1, Intact);
    LinksEach(t, last, SinkingAt(0));
    forall j | 1 <= j < last
      ensures LinkHolds(t, j, SinkingAt(0))
    {
      assert LinkHolds(s, j, Intact);
      assert t[j] == s[j];
    }
  }

  /** The extraction loop's invariant carries over one iteration. */
  lemma ExtractInvariant(before: seq<int>, swapped: seq<int>, after: seq<int>, last: int, nKeys: int)
    requires 1 <= last < nKeys <= |before|
    requires SortedRange(before, last + 1, nKeys)
    requires PrefixBelow(before, last + 1, nKeys)
    requires forall j :: 0 <= j < last + 1 ==> before[j] <= before[0]
    requires swapped == Swapped(before, 0, last)
    requires |after| == |swapped|
    requires multiset(after) == multiset(swapped)
    requires SameFrom(after, swapped, last)
    ensures SortedRange(after, last, nKeys)
    ensures PrefixBelow(after, last, nKeys)
    ensures multiset(after) == multiset(before)
    ensures SameFrom(after, before, nKeys)
  {
    SwappedIsPermutation(before, 0, last);
    PrefixMultiset(after, swapped, last);
    forall j | last <= j < nKeys
      ensures forall i :: 0 <= i < last ==> after[i] <= after[j]
    {
      assert forall i :: 0 <= i < last ==> swapped[..last][i] <= after[j];
      BoundCarries(after[..last], swapped[..last], after[j]);
      assert forall i :: 0 <= i < last ==> after[..last][i] == after[i];
    }
  }
}
