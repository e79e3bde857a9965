# X9FanControl `temp.c`: a verified Dafny model of the hottest-reading selection

`temp.c` runs a fan-control cycle for X9 Supermicro boards. It stores one
temperature reading per line of the sensor script into the global buffer
`a` of `MAX_VALUES` = 24 ints, from index 0 on, without bounding the index.
It sorts the whole buffer in place with a 1-based binary-heap sort. It then
scans downward for the first strictly positive int, starting at
`k = sizeof(a)` = 96, which lies 73 ints past the buffer's top element (the
first row under "## Findings"). That reading is the input to the fan-speed
curve. With no argument, or with more than one, the program runs the cycle
once. With the single argument `--help` it prints usage. Any other single
argument that is a valid interval makes it run the cycle forever; an invalid
one makes it return 0 and run nothing. The argument is a valid interval
only if `strtol` converts the whole argument without error and the value is
at least `INT_MIN`, which the file redefines as 1.

The model has these modules:

- `BinaryHeap` (`heapsort.dfy`) holds `swap` and `heapsort` as imperative
  methods on an `array<int>`. They keep the source's 1-based variables
  (`last`, `n`, `parent`, `max`, `left`, `right`) after the `keys -= 1` shift.
  Each access `keys[i]` of the source is written `keys[i - 1]`.
  - The two inner loops are `SiftUp` and `SiftDown`, and the two outer
    loops are `BuildHeap` and `ExtractAll`.
  - Each loop body is its own method: `RiseStep`, `SinkStep` and
    `ExtractStep`.
  - `HeapSort` is proved to leave `keys[0..nKeys)` equal to `Sort` of its
    input, to be sorted and a permutation of the input, and to leave
    everything beyond `nKeys` unchanged.
- `Sorting` (`sorting.dfy`) gives the meaning of "sorted" and a reference
  insertion sort `Sort`. It also proves that a sorted permutation is unique,
  which makes the heap sort's result fully determined.
- `Selection` (`selection.dfy`) holds the reference definition
  `MaxPositive` (the largest strictly positive reading, or none). It also
  holds the downward scan `ScanDown`, the corrected scan method
  `SelectHottest`, and the scan as written, which starts at `sizeof(a)`.
- `FanControl` (`fancontrol.dfy`) models one cycle of `setFanSpeed`: the
  readings are stored, the buffer is heap-sorted and the hottest reading is
  selected. `SetFanSpeedAsWritten` scans from `sizeof(a)` as the source
  does, over the buffer and the memory after it. `SetFanSpeed` uses the
  corrected scan bounds. `SetFanSpeedCleared` also clears the buffer first.
- `Interval` (`interval.dfy`) holds a base-10 model of `strtol` (64-bit
  `long`), the acceptance test of `main`, the 32-bit store into `interval`,
  and the choice `main` makes.
- `Wrappers` (`wrappers.dfy`) holds `Option`.

The heap predicates use 0-based sequence indices j, whose parent is
(j - 1) / 2. This is the same relation as the source's parent n / 2 on
1-based positions, shifted by one.

Some facts about `temp.c` that the model keeps:

- `main` recognises only `--help`; there is no `--table` or `--debug` flag.
- An invalid interval argument prints nothing and returns 0.
- The forever loop sleeps 1 second, whatever the interval.
- A line that `sscanf` cannot read leaves its slot unchanged; the slot is
  not set to 0.
- No fan command is issued.

## Model

| member | source | states |
|---|---|---|
| `BinaryHeap.Swap` | temp.c:89-93 | the buffer afterwards is the old buffer with elements n and m exchanged |
| `BinaryHeap.SwappedIsPermutation` | temp.c:89-93 | an exchange keeps the multiset, puts each of the two elements in the other's place and leaves every other element unchanged |
| `BinaryHeap.LinksEach` | temp.c:98-130 | the recursive heap predicate holds exactly when each parent/child link holds |
| `BinaryHeap.RootBoundsElement` | temp.c:110-112 | in a max-heap every element is at most the root |
| `BinaryHeap.HeapRootIsMax` | temp.c:110-112 | the root of a max-heap is its maximum, so swapping it to position last+1 moves the largest remaining element |
| `BinaryHeap.SiftUpStart` | temp.c:98-100 | adding position `last` to a heap on 1..last-1 gives a heap that may be broken only above `last` |
| `BinaryHeap.SiftUpStep` | temp.c:102-107 | swapping an element with a parent that is not strictly greater moves the only broken link up to the parent |
| `BinaryHeap.SiftUpStop` | temp.c:101-104 | at the root, or below a strictly greater parent, positions 1..last are a max-heap |
| `BinaryHeap.RiseStep` | temp.c:102-107 | one pass of the sift-up body: either nothing changes and the heap is whole, or n is exchanged with n/2 and the fault moves to n/2 |
| `BinaryHeap.SiftUp` | temp.c:100-108 | positions 1..last become a max-heap; the buffer is permuted and positions after `last` are unchanged |
| `BinaryHeap.BuildHeap` | temp.c:98-109 | after the build loop, positions 1..n_keys are a max-heap of the same elements, and nothing beyond n_keys changed |
| `BinaryHeap.ChildOf` | temp.c:116-117 | the children of position n are exactly 2n and 2n+1 |
| `BinaryHeap.LargestOfFamily` | temp.c:115-122 | `max` is n or a child within `last`; it holds the largest of the three, and it differs from n only if that child is strictly greater |
| `BinaryHeap.SiftDownStep` | temp.c:124-128 | swapping n with its larger, strictly greater child moves the only broken link down to that child |
| `BinaryHeap.SiftDownStop` | temp.c:124-125 | when no child is strictly greater than n, positions 1..last are a max-heap |
| `BinaryHeap.SinkStep` | temp.c:115-128 | one pass of the sift-down body: either nothing changes and the heap is whole, or n is exchanged with its larger child and the fault moves there |
| `BinaryHeap.SiftDown` | temp.c:113-129 | a heap broken only at the root becomes a max-heap on 1..last; the buffer is permuted and positions after `last` are unchanged |
| `BinaryHeap.RootOutIsDownHeap` | temp.c:112 | after swap(keys, 1, last + 1), positions 1..last are a heap broken only at the root |
| `BinaryHeap.ExtractInvariant` | temp.c:110-130 | one extraction step keeps the suffix ascending, keeps the prefix no larger than the suffix, and permutes the buffer |
| `BinaryHeap.ExtractStep` | temp.c:110-129 | one outer iteration keeps the extraction invariant: a max-heap on 1..last, an ascending suffix, prefix ≤ suffix |
| `BinaryHeap.SortedFinish` | temp.c:110 | when the loop ends with at most one element left in the heap, keys[0..n_keys) is sorted |
| `BinaryHeap.ExtractAll` | temp.c:110-130 | the extraction phase turns a max-heap into a sorted buffer of the same elements, and nothing beyond n_keys changed |
| `BinaryHeap.HeapSort` | temp.c:95-131 | keys[0..n_keys) ends up as the sorted arrangement of its elements: sorted, a permutation, equal to `Sort` of the input; keys beyond n_keys are unchanged; n_keys ≤ 1 changes nothing |
| `BinaryHeap.SortedArrangement` | temp.c:95-131 | a sorted permutation of the first n_keys elements that leaves the rest alone equals `Sort` of them |
| `Sorting.Sort` | temp.c:95-131 | the reference sort is sorted and a permutation of its input |
| `Sorting.SortIsTheSortedPermutation` | temp.c:95-131 | any sorted permutation of the buffer equals `Sort` of it |
| `Sorting.SortedPermutationUnique` | temp.c:95-131 | two sorted sequences with the same elements are equal, so the heap sort's result is determined |
| `Selection.MaxPositive` | temp.c:158-174 | the reference selection: None exactly when no reading is positive; otherwise a positive reading that is at least every positive reading |
| `Selection.MaxPositiveUnique` | temp.c:158-174 | a positive reading that bounds all positive readings is the selected one |
| `Selection.MaxPositiveOrderFree` | temp.c:158-174 | the selection does not depend on the order of the readings, so sorting first does not change it |
| `Selection.ScanDown` | temp.c:160-174 | the scan from k finds the positive element with the highest index among indices 1..k, and finds none exactly when all of them are ≤ 0; index 0 is never read |
| `Selection.ScanDownOfSorted` | temp.c:160-174 | on a sorted buffer the downward scan from k yields the largest positive element of indices 1..k |
| `Selection.SkippingFirstIsHarmless` | temp.c:160 | on a sorted buffer of at least two readings, a positive a[0] implies a positive top element, and leaving out a[0] does not change the selection |
| `Selection.ScanFrom` | temp.c:160-174 | the scan loop from a given start down to 1 returns the downward scan `ScanDown` of the ints it reads |
| `Selection.SelectHottest` | temp.c:160-174 | the corrected scan (indices n-1 down to 1) on a sorted buffer of at least two readings returns the largest positive reading, or none |
| `Selection.ScanAsWritten` | temp.c:160 | the scan as written starts at index sizeof(a) = 96 and can return a value read beyond the 24-element buffer |
| `Selection.ScanDownReadsOnlyUpTo` | temp.c:160-161 | the scan from k depends only on indices 1..k |
| `Selection.ScanDownSkipsCold` | temp.c:160-161 | elements that are not positive above index m make the scan from k equal to the scan from m |
| `Selection.ScanAsWrittenOverColdMemory` | temp.c:160-174 | when none of the ints a[24]..a[96] is positive, the scan as written equals the corrected scan, and on a sorted buffer it selects the largest positive reading |
| `Selection.ScanAsWrittenReadsPastBuffer` | temp.c:160-161 | a sorted buffer whose hottest reading is 42, with 7 stored just beyond it, makes the scan as written return 7 |
| `FanControl.RefillSlots` | temp.c:148-157 | after the lines are stored, slot k holds line k's temperature if that line was read, and keeps its old value otherwise |
| `FanControl.StoreReadings` | temp.c:148-157 | the fill loop leaves the buffer as the old buffer refilled by this cycle's lines |
| `FanControl.SetFanSpeedAsWritten` | temp.c:133-183 | one cycle as written leaves `a` as the sorted arrangement of the refilled buffer and returns the scan of temp.c:160, which starts at index 96, over the buffer and the memory after it; when none of a[24]..a[96] is positive, it selects the largest positive value in the buffer |
| `FanControl.SetFanSpeed` | temp.c:133-183 | one cycle with the corrected scan bounds leaves `a` as the sorted arrangement of the refilled buffer, and selects the largest positive value in that buffer |
| `FanControl.FirstCycle` | temp.c:62 | on the zero-initialised global buffer, the corrected cycle `SetFanSpeed` selects the largest positive temperature reported by this cycle's lines |
| `FanControl.StaleReadingWins` | temp.c:148-159 | after a cycle that left 90 at the top, a cycle whose only line reports 40 selects 90 |
| `FanControl.ClearBuffer` | temp.c:62 | every slot becomes 0, the state at program start |
| `FanControl.SetFanSpeedCleared` | temp.c:133-183 | the corrected cycle selects the largest positive temperature reported by this cycle's lines, whatever earlier cycles left, and leaves the buffer as the sorted arrangement of the zero buffer refilled by those lines |
| `Interval.StrToL` | temp.c:209 | the conversion gives a value within `long`; a range error gives LONG_MAX or LONG_MIN; no conversion gives 0 with the end pointer at the start |
| `Interval.ParseInterval` | temp.c:209-213 | an accepted interval lies in [1, LONG_MAX] |
| `Interval.ParseDecimal` | temp.c:209-213 | round trip: a decimal rendering, with or without '+', is accepted exactly when its value is in [1, LONG_MAX], and gives that value back |
| `Interval.DecimalConverts` | temp.c:209 | `strtol` reads the decimal rendering of v in full and gives v, clamped to `long` |
| `Interval.PlusDecimalConverts` | temp.c:209 | `strtol` reads '+' followed by the decimal rendering of v in full and gives v, clamped to `long` |
| `Interval.NegativeRejected` | temp.c:213 | a negative number is never accepted |
| `Interval.TrailingCharacterRejected` | temp.c:213 | a character after the digits, trailing white space included, makes the argument invalid |
| `Interval.LeadingSpaceSkipped` | temp.c:209 | leading white space does not change whether or how the argument is accepted |
| `Interval.AcceptedShape` | temp.c:209-213 | every accepted argument is white space, no '-', then digits up to the end whose value is the interval |
| `Interval.StoredInterval` | temp.c:218 | storing into the 32-bit `interval` gives an `int` congruent to the value mod 2^32 |
| `Interval.StoredIntervalExact` | temp.c:218 | an accepted interval up to INT_MAX is stored unchanged |
| `Interval.LargeIntervalWraps` | temp.c:209-218 | every accepted value above INT_MAX is stored as a different `int` |
| `Interval.SelectMode` | temp.c:187-232 | usage text exactly for `--help` as the single argument; run once exactly when argc ≠ 2; nothing exactly for an invalid single argument; otherwise run forever with the stored interval |
| `Interval.HelpIsNotAnInterval` | temp.c:187-213 | `--help` is not an interval |

## Left out

- Sensor acquisition (`popen`, `fgets`, `sscanf`, temp.c:137-157) is I/O. Each line arrives as `Some(t)` when `sscanf` stored a temperature and `None` when it stored nothing. How `%i` reads octal, hexadecimal or out-of-range numbers is not modelled.
- FanControl.SetFanSpeed: uses the corrected scan bounds of the first row under "## Findings", because the scan as written reads outside the buffer. `FanControl.SetFanSpeedAsWritten` is the cycle with the scan as written.
- FanControl.SetFanSpeed: requires at most 24 lines. The source does not bound the fill index, and more lines write past the buffer.
- FanControl.SetFanSpeedAsWritten: requires at most 24 lines, for the same reason.
- FanControl.SetFanSpeedCleared: requires at most 24 lines, for the same reason.
- `hysteresisControl` and `interpolateFanSpeed` (temp.c:78-87) are floating-point. The cycle returns the selected reading, which is the input to that curve, not the fan code.
- The global `tachoControl` (temp.c:61, 85) is written but never read, so it is left out.
- `printfVals` and every `printf` (temp.c:65-76, 164-181, 189-199, 219) are output only.
- The `goto LOOP` / `sleep(1)` forever loop (temp.c:222-226) never terminates and ignores `interval`. `SelectMode` returns `RunEverySecond` instead.
- The `popen` failure branch and `exit(1)` (temp.c:142-145) are process control.
- BinaryHeap.HeapSort: takes `nKeys` as a `nat`, because `setFanSpeed` always passes 24. In the source a negative `n_keys` skips both loops and changes nothing.
- The heap sort only compares and moves `int` values, so no integer width matters there. The readings are unbounded integers.
- Reads in `LargestOfFamily` are guarded by `left <= last` and `right <= last`, as in the source. The model proves that no write goes beyond `nKeys` (`SameFrom`), but it does not restate the read guard as a separate property.
- The model treats `strtol` as the C library specifies it for base 10. It does not model locale-dependent white space, or an `errno` set by anything other than the conversion.

## Findings

| source | as written | input that shows it | evidently intended | confidence | as-written member | corrected member |
|---|---|---|---|---|---|---|
| temp.c:160 | `for (int k = sizeof(a); k > 0; k--)` starts at k = 96, a byte count, and reads a[96] down to a[24], all outside the 24-element buffer | sorted buffer with 42 at a[23] and zeros elsewhere, with the int 7 stored at a[96] in memory: the scan selects 7 instead of 42 | scan the buffer's own indices, 23 down to 1 (or 0) | high; not executed | `Selection.ScanAsWrittenReadsPastBuffer` | `Selection.SelectHottest` |
| temp.c:148-159 | the global buffer `a` is never cleared between cycles, so a slot that no line of this cycle writes keeps the previous cycle's sorted value | previous cycle leaves 90 at a[23]; this cycle's only line reports 40: the cycle selects 90 | select from this cycle's readings only, with unfilled slots reset to 0 | medium; not executed | `FanControl.StaleReadingWins` | `FanControl.SetFanSpeedCleared` |
