/**
 * One control cycle of `setFanSpeed` (temp.c:133-183) on the global
 * reading buffer `a`: the lines of the sensor script are stored into the
 * buffer from index 0 on, the whole buffer is heap-sorted and the hottest
 * strictly positive reading is selected.
 *
 * Each line arrives already parsed: Some(t) when `sscanf(path, "%s %i",
 * ...)` stored the temperature t into a[i], None when it stored nothing and
 * left a[i] as it was. The buffer itself is never cleared, so slots that no
 * line of this cycle writes keep what the previous cycle left there.
 */
module FanControl {
  import opened Wrappers
  import opened Sorting
  import opened BinaryHeap
  import opened Selection

  /** The buffer after the lines of one cycle are stored into it from index 0 on. */
  function Refill(buffer: seq<int>, lines: seq<Option<int>>): (r: seq<int>)
    requires |lines| <= |buffer|
    ensures |r| == |buffer|
    decreases |lines|
  {
    if lines == [] then buffer
    else
      var k := |lines| - 1;
      var before := Refill(buffer, lines[..k]);
      match lines[k]
      case None => before
      case Some(t) => before[k := t]
  }

  /** Slot k holds the last cycle's value unless a line of this cycle stored a temperature there. */
  lemma {:induction false} RefillSlots(buffer: seq<int>, lines: seq<Option<int>>, k: int)
    requires |lines| <= |buffer| && 0 <= k < |buffer|
    ensures k < |lines| && lines[k].Some? ==> Refill(buffer, lines)[k] == lines[k].value
    ensures k >= |lines| || lines[k].None? ==> Refill(buffer, lines)[k] == buffer[k]
    decreases |lines|
  {
    if lines != [] {
      var n := |lines| - 1;
      assert lines[..n] + [lines[n]] == lines;
      if k < n {
        assert lines[..n][k] == lines[k];
      }
      RefillSlots(buffer, lines[..n], k);
    }
  }

  /** The temperatures the lines of one cycle report, with 0 for a line that stored nothing. */
  function Readings(lines: seq<Option<int>>): (r: seq<int>)
    ensures |r| == |lines|
    ensures forall k :: 0 <= k < |lines| ==> r[k] == (if lines[k].Some? then lines[k].value else 0)
  {
    seq(|lines|, k requires 0 <= k < |lines| => if lines[k].Some? then lines[k].value else 0)
  }

  /**
   * The loop of temp.c:148-157: line i is stored into a[i] when sscanf
   * yields a temperature for it, and a[i] is left alone otherwise.
   */
  method StoreReadings(a: array<int>, lines: seq<Option<int>>)
    requires |lines| <= a.Length
    modifies a
    ensures a[..] == Refill(old(a[..]), lines)
  {
    var i := 0;
    while i < |lines|
      invariant 0 <= i <= |lines|
      invariant a[..] == Refill(old(a[..]), lines[..i])
    {
      assert lines[..i + 1][..i] == lines[..i];
      if lines[i].Some? {
        a[i] := lines[i].value;
      }
      i := i + 1;
    }
    assert lines[..i] == lines;
  }

  /**
   * `setFanSpeed` (temp.c:133-183) with the scan bounds corrected to the
   * buffer's own indices: stores the lines, sorts all
   * sizeof(a) / sizeof(int) = MaxValues slots and selects the hottest
   * positive reading, whose fan code the source then computes. The buffer
   * ends up as the sorted arrangement of the refilled buffer, and the
   * reading selected is the largest positive value in it.
   * `SetFanSpeedAsWritten` is the cycle with the scan of temp.c:160 as
   * written.
   */
  method SetFanSpeed(a: array<int>, lines: seq<Option<int>>) returns (hottest: Option<int>)
    requires a.Length == MaxValues && |lines| <= MaxValues
    modifies a
    ensures a[..] == Sort(Refill(old(a[..]), lines))
    ensures hottest == MaxPositive(Refill(old(a[..]), lines))
  {
    StoreReadings(a, lines);
    ghost var filled := a[..];
    var nA := a.Length;
    HeapSort(a, nA);
    assert a[..] == a[..nA] && filled == filled[..nA];
    hottest := SelectHottest(a);
    MaxPositiveOrderFree(a[..], filled);
  }

  /**
   * `setFanSpeed` (temp.c:133-183) as written: the scan starts at
   * k = sizeof(a) and so reads the ints a[96] down to a[24] first.
   * `beyond` stands for the 73 ints that follow the buffer in memory, from
   * a[24] to a[96]; the scan reads them but does not change them. When none
   * of them is positive, the cycle selects what `SetFanSpeed` selects.
   */
  method SetFanSpeedAsWritten(a: array<int>, lines: seq<Option<int>>, beyond: seq<int>)
    returns (hottest: Option<int>)
    requires a.Length == MaxValues && |lines| <= MaxValues
    requires |beyond| == BufferBytes + 1 - MaxValues
    modifies a
    ensures a[..] == Sort(Refill(old(a[..]), lines))
    ensures hottest == ScanAsWritten(a[..] + beyond)
    ensures (forall i :: 0 <= i < |beyond| ==> beyond[i] <= 0) ==>
              hottest == MaxPositive(Refill(old(a[..]), lines))
  {
    StoreReadings(a, lines);
    ghost var filled := a[..];
    var nA := a.Length;
    HeapSort(a, nA);
    assert a[..] == a[..nA] && filled == filled[..nA];
    hottest := ScanFrom(a[..] + beyond, BufferBytes);
    if forall i :: 0 <= i < |beyond| ==> beyond[i] <= 0 {
      ScanAsWrittenOverColdMemory(a[..], beyond);
      MaxPositiveOrderFree(a[..], filled);
    }
  }

  /**
   * On the first cycle the global buffer is all zeros, so the reading the
   * corrected cycle `SetFanSpeed` selects is the largest positive
   * temperature the lines report: the untouched slots hold 0, which is
   * never selected.
   */
  lemma FirstCycle(lines: seq<Option<int>>)
    requires |lines| <= MaxValues
    ensures MaxPositive(Refill(seq(MaxValues, i => 0), lines)) == MaxPositive(Readings(lines))
  {
    var zeros := seq(MaxValues, i => 0);
    RefillOfZeros(zeros, lines);
  }

  /** Refilling a buffer of zeros gives the reported readings followed by zeros. */
  lemma RefillOfZeros(zeros: seq<int>, lines: seq<Option<int>>)
    requires |lines| <= |zeros|
    requires forall i :: 0 <= i < |zeros| ==> zeros[i] == 0
    ensures MaxPositive(Refill(zeros, lines)) == MaxPositive(Readings(lines))
  {
    var r := Refill(zeros, lines);
    var q := Readings(lines);
    forall k | 0 <= k < |r|
      ensures r[k] == (if k < |q| then q[k] else 0)
    {
      RefillSlots(zeros, lines, k);
    }
    var m := MaxPositive(q);
    if m.None? {
      assert forall k :: 0 <= k < |r| ==> r[k] <= 0;
    } else {
      var j :| 0 <= j < |q| && q[j] == m.value;
      assert r[j] == m.value;
      MaxPositiveUnique(r, m.value);
    }
  }

  /**
   * A slot that no line of this cycle writes keeps the previous cycle's
   * reading: after a cycle that sorted 90 to the top, a cycle whose only
   * line reports 40 selects 90.
   */
  lemma StaleReadingWins()
    ensures var previous := seq(MaxValues - 1, i => 0) + [90];
            var lines := [Some(40)];
            && Sorted(previous)
            && MaxPositive(Readings(lines)) == Some(40)
            && MaxPositive(Refill(previous, lines)) == Some(90)
  {
    var previous := seq(MaxValues - 1, i => 0) + [90];
    var lines := [Some(40)];
    var r := Refill(previous, lines);
    RefillSlots(previous, lines, 0);
    RefillSlots(previous, lines, MaxValues - 1);
    forall k | 0 <= k < |r| && r[k] > 0
      ensures r[k] <= 90
    {
      RefillSlots(previous, lines, k);
    }
    MaxPositiveUnique(r, 90);
    MaxPositiveUnique(Readings(lines), 40);
  }

  /** Sets every slot of the buffer to 0, as at program start. */
  method ClearBuffer(a: array<int>)
    modifies a
    ensures forall i :: 0 <= i < a.Length ==> a[i] == 0
  {
    var i := 0;
    while i < a.Length
      invariant 0 <= i <= a.Length
      invariant forall j :: 0 <= j < i ==> a[j] == 0
    {
      a[i] := 0;
      i := i + 1;
    }
  }

  /**
   * The cycle with the buffer cleared first: the reading selected is the
   * largest positive temperature this cycle's lines report, whatever the
   * previous cycles left in the buffer.
   */
  method SetFanSpeedCleared(a: array<int>, lines: seq<Option<int>>) returns (hottest: Option<int>)
    requires a.Length == MaxValues && |lines| <= MaxValues
    modifies a
    ensures hottest == MaxPositive(Readings(lines))
    ensures a[..] == Sort(Refill(seq(MaxValues, i => 0), lines))
    ensures Sorted(a[..])
  {
    ClearBuffer(a);
    ghost var zeros := a[..];
    assert forall i :: 0 <= i < |zeros| ==> zeros[i] == 0;
    assert zeros == seq(MaxValues, i => 0);
    hottest := SetFanSpeed(a, lines);
    RefillOfZeros(zeros, lines);
  }
}
