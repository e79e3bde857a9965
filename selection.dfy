/**
 * Choosing the hottest reading after the buffer is sorted (the scan inside
 * `setFanSpeed`, temp.c:158-174): the buffer is read from the top down and
 * the first strictly positive value is the temperature the fan code is
 * computed from; when no value is positive no fan code is computed.
 */
module Selection {
  import opened Wrappers
  import opened Sorting

  /** MAX_VALUES: the capacity of the reading buffer `a` (temp.c:54, temp.c:62). */
  const MaxValues := 24

  /** sizeof(int) on the board's platform. */
  const IntSize := 4

  /** sizeof(a): the size of the reading buffer in bytes, not in elements. */
  const BufferBytes := IntSize * MaxValues

  /**
   * The reference definition: the largest strictly positive element of s,
   * or None when no element is positive.
   */
  function MaxPositive(s: seq<int>): (r: Option<int>)
    ensures r.None? <==> forall i :: 0 <= i < |s| ==> s[i] <= 0
    ensures r.Some? ==> r.value > 0 && r.value in s
    ensures r.Some? ==> forall i :: 0 <= i < |s| && s[i] > 0 ==> s[i] <= r.value
    decreases |s|
  {
    if s == [] then None
    else
      var x := s[|s| - 1];
      var rest := MaxPositive(s[..|s| - 1]);
      assert forall i :: 0 <= i < |s| - 1 ==> s[..|s| - 1][i] == s[i];
      if x > 0 && (rest.None? || rest.value < x) then Some(x) else rest
  }

  /** A positive element of s that bounds every positive element of s is MaxPositive(s). */
  lemma MaxPositiveUnique(s: seq<int>, v: int)
    requires v > 0 && v in s
    requires forall i :: 0 <= i < |s| && s[i] > 0 ==> s[i] <= v
    ensures MaxPositive(s) == Some(v)
  {
    var i :| 0 <= i < |s| && s[i] == v;
    var r := MaxPositive(s);
    var j :| 0 <= j < |s| && s[j] == r.value;
  }

  /** The largest positive reading does not depend on the order of the readings. */
  lemma MaxPositiveOrderFree(s: seq<int>, t: seq<int>)
    requires multiset(s) == multiset(t)
    ensures MaxPositive(s) == MaxPositive(t)
  {
    var r := MaxPositive(s);
    if r.None? {
      forall i | 0 <= i < |t|
        ensures t[i] <= 0
      {
        assert t[i] in multiset(s);
      }
    } else {
      assert r.value in multiset(t);
      forall i | 0 <= i < |t| && t[i] > 0
        ensures t[i] <= r.value
      {
        assert t[i] in multiset(s);
      }
      MaxPositiveUnique(t, r.value);
    }
  }

  /**
   * The downward scan of temp.c:160-174 from index k: the first strictly
   * positive element among s[k], s[k - 1], ..., s[1]. Index 0 is never
   * looked at, because the loop runs while k > 0.
   */
  function ScanDown(s: seq<int>, k: int): (r: Option<int>)
    requires k < |s|
    ensures r.Some? ==> r.value > 0
    ensures r.Some? ==> exists i :: 0 < i <= k && s[i] == r.value && forall j :: i < j <= k ==> s[j] <= 0
    ensures r.None? <==> forall i :: 0 < i <= k ==> s[i] <= 0
    decreases k
  {
    if k <= 0 then None
    else if s[k] > 0 then Some(s[k])
    else ScanDown(s, k - 1)
  }

  /** On a sorted buffer the downward scan from k finds the largest positive element of s[1..k]. */
  lemma {:induction false} ScanDownOfSorted(s: seq<int>, k: int)
    requires Sorted(s) && 0 <= k < |s|
    ensures ScanDown(s, k) == MaxPositive(s[1..k + 1])
    decreases k
  {
    var t := s[1..k + 1];
    if k > 0 {
      if s[k] > 0 {
        assert t[k - 1] == s[k];
        forall i | 0 <= i < |t| && t[i] > 0
          ensures t[i] <= s[k]
        {
          assert t[i] == s[i + 1];
        }
        MaxPositiveUnique(t, s[k]);
      } else {
        forall i | 0 <= i < |t|
          ensures t[i] <= 0
        {
          assert t[i] == s[i + 1];
        }
      }
    }
  }

  /**
   * Skipping index 0 is harmless on a sorted buffer of at least two
   * readings: when s[0] is positive, so is the top element, which the scan
   * reaches first, and the largest positive element of s[1..] is that of s.
   */
  lemma SkippingFirstIsHarmless(s: seq<int>)
    requires Sorted(s) && |s| >= 2
    ensures s[0] > 0 ==> s[|s| - 1] > 0
    ensures MaxPositive(s[1..]) == MaxPositive(s)
  {
    var t := s[1..];
    var r := MaxPositive(s);
    if r.None? {
      forall i | 0 <= i < |t|
        ensures t[i] <= 0
      {
        assert t[i] == s[i + 1];
      }
    } else {
      var top := s[|s| - 1];
      assert r.value <= top;
      assert t[|t| - 1] == top;
      forall i | 0 <= i < |t| && t[i] > 0
        ensures t[i] <= top
      {
        assert t[i] == s[i + 1];
      }
      MaxPositiveUnique(t, top);
      MaxPositiveUnique(s, top);
    }
  }

  /**
   * The loop of temp.c:160-174 over the ints s[0], s[1], ...: k runs from
   * the given start down to 1 and stops at the first strictly positive
   * element.
   */
  method ScanFrom(s: seq<int>, start: int) returns (hottest: Option<int>)
    requires start < |s|
    ensures hottest == ScanDown(s, start)
  {
    var k := start;
    hottest := None;
    while k > 0
      invariant k <= start
      invariant hottest.None?
      invariant ScanDown(s, start) == ScanDown(s, k)
    {
      if s[k] > 0 {
        hottest := Some(s[k]);
        break;
      }
      k := k - 1;
    }
  }

  /**
   * The scan over the buffer, with the bounds corrected to the buffer's own
   * indices: k runs from a.Length - 1 down to 1 and stops at the first
   * strictly positive element. On a sorted buffer of at least two readings
   * the result is the largest positive reading.
   */
  method SelectHottest(a: array<int>) returns (hottest: Option<int>)
    ensures hottest == ScanDown(a[..], a.Length - 1)
    ensures Sorted(a[..]) && a.Length >= 2 ==> hottest == MaxPositive(a[..])
  {
    hottest := ScanFrom(a[..], a.Length - 1);
    if Sorted(a[..]) && a.Length >= 2 {
      ScanDownOfSorted(a[..], a.Length - 1);
      assert a[..][1..a.Length] == a[..][1..];
      SkippingFirstIsHarmless(a[..]);
    }
  }

  /**
   * The scan as written: k starts at sizeof(a), a byte count, so the first
   * elements read are a[96], a[95], ..., a[24], which lie beyond the
   * 24-element buffer. `memory` stands for the ints at a[0], a[1], ... in
   * the order the program addresses them; its first MaxValues elements are
   * the buffer.
   */
  function ScanAsWritten(memory: seq<int>): (r: Option<int>)
    requires |memory| > BufferBytes
    ensures r.Some? ==> exists i :: 0 < i <= BufferBytes && memory[i] == r.value
  {
    ScanDown(memory, BufferBytes)
  }

  /** The scan from k reads nothing but indices 1..k. */
  lemma {:induction false} ScanDownReadsOnlyUpTo(s: seq<int>, t: seq<int>, k: int)
    requires k < |s| && k < |t|
    requires forall i :: 0 < i <= k ==> s[i] == t[i]
    ensures ScanDown(s, k) == ScanDown(t, k)
    decreases k
  {
    if k > 0 {
      ScanDownReadsOnlyUpTo(s, t, k - 1);
    }
  }

  /** Elements that are not positive above index m make the scan from k behave as the scan from m. */
  lemma {:induction false} ScanDownSkipsCold(s: seq<int>, m: int, k: int)
    requires 0 <= m <= k < |s|
    requires forall i :: m < i <= k ==> s[i] <= 0
    ensures ScanDown(s, k) == ScanDown(s, m)
    decreases k
  {
    if k > m {
      ScanDownSkipsCold(s, m, k - 1);
    }
  }

  /**
   * When no int between a[24] and a[96] is positive, the scan as written
   * gives what the corrected scan gives, and so, on a sorted buffer, the
   * largest positive reading.
   */
  lemma ScanAsWrittenOverColdMemory(buffer: seq<int>, beyond: seq<int>)
    requires |buffer| == MaxValues && |beyond| > BufferBytes - MaxValues
    requires forall i :: 0 <= i <= BufferBytes - MaxValues ==> beyond[i] <= 0
    ensures ScanAsWritten(buffer + beyond) == ScanDown(buffer, MaxValues - 1)
    ensures Sorted(buffer) ==> ScanAsWritten(buffer + beyond) == MaxPositive(buffer)
  {
    var memory := buffer + beyond;
    forall i | MaxValues - 1 < i <= BufferBytes
      ensures memory[i] <= 0
    {
      assert memory[i] == beyond[i - MaxValues];
    }
    ScanDownSkipsCold(memory, MaxValues - 1, BufferBytes);
    ScanDownReadsOnlyUpTo(memory, buffer, MaxValues - 1);
    if Sorted(buffer) {
      ScanDownOfSorted(buffer, MaxValues - 1);
      assert buffer[1..MaxValues] == buffer[1..];
      SkippingFirstIsHarmless(buffer);
    }
  }

  /**
   * A positive value just beyond the buffer is taken for the hottest
   * reading, although the sorted buffer's own hottest reading is larger.
   */
  lemma ScanAsWrittenReadsPastBuffer()
    ensures var buffer := seq(MaxValues - 1, i => 0) + [42];
            var memory := buffer + seq(BufferBytes - MaxValues, i => 0) + [7];
            && |memory| == BufferBytes + 1
            && Sorted(buffer)
            && MaxPositive(buffer) == Some(42)
            && ScanAsWritten(memory) == Some(7)
  {
    var buffer := seq(MaxValues - 1, i => 0) + [42];
    var memory := buffer + seq(BufferBytes - MaxValues, i => 0) + [7];
    assert memory[BufferBytes] == 7;
    MaxPositiveUnique(buffer, 42);
  }
}
