/**
 * The command line of `main` (temp.c:185-233). A single argument other than
 * `--help` is converted with `strtol(argv[1], &p, 10)` and accepted as the
 * interval only when no range error was raised, the conversion consumed the
 * whole argument and the value is at least INT_MIN, which temp.c:59
 * redefines as 1. The accepted value is then stored in the `int` global
 * `interval`.
 *
 * A C string is modelled by the characters before its terminating NUL, so
 * `*p != '\0'` reads "the conversion stopped before the end of the string".
 * `long` is 64 bits wide and `int` 32 bits wide, as on the board's platform.
 */
module Interval {
  import opened Wrappers

  /** INT_MIN as temp.c:59 defines it: the shortest accepted interval, in seconds. */
  const IntervalMin := 1

  /** LONG_MAX and LONG_MIN for a 64-bit `long`. */
  const LongMax := 0x7fff_ffff_ffff_ffff
  const LongMin := -0x8000_0000_0000_0000

  /** The range of a 32-bit `int`. */
  const IntMax := 0x7fff_ffff
  const IntMin := -0x8000_0000

  /** `isspace` in the C locale: space, tab, newline, vertical tab, form feed, carriage return. */
  predicate IsSpace(c: char)
  {
    c == ' ' || '\t' <= c <= '\r'
  }

  /** `isdigit`. */
  predicate IsDigit(c: char)
  {
    '0' <= c <= '9'
  }

  /** The index of the first character at or after i that is not white space. */
  function SkipSpace(s: seq<char>, i: nat): (j: nat)
    requires i <= |s|
    ensures i <= j <= |s|
    ensures forall k :: i <= k < j ==> IsSpace(s[k])
    ensures j < |s| ==> !IsSpace(s[j])
    decreases |s| - i
  {
    if i < |s| && IsSpace(s[i]) then SkipSpace(s, i + 1) else i
  }

  /** The index of the first character at or after i that is not a decimal digit. */
  function DigitsEnd(s: seq<char>, i: nat): (j: nat)
    requires i <= |s|
    ensures i <= j <= |s|
    ensures forall k :: i <= k < j ==> IsDigit(s[k])
    ensures j < |s| ==> !IsDigit(s[j])
    decreases |s| - i
  {
    if i < |s| && IsDigit(s[i]) then DigitsEnd(s, i + 1) else i
  }

  /** The value of one decimal digit. */
  function DigitValue(c: char): (d: nat)
    requires IsDigit(c)
    ensures d <= 9
  {
    c as int - '0' as int
  }

  /** The value of a run of decimal digits, most significant first. */
  function DigitsValue(ds: seq<char>): (v: nat)
    requires forall k :: 0 <= k < |ds| ==> IsDigit(ds[k])
  {
    if ds == [] then 0
    else DigitsValue(ds[..|ds| - 1]) * 10 + DigitValue(ds[|ds| - 1])
  }

  /** What `strtol` returns, whether it set errno to ERANGE, and where it left its end pointer. */
  datatype Conversion = Conversion(value: int, rangeError: bool, end: nat)

  /** Where the digits of s begin: after the leading white space and an optional sign. */
  function DigitsStart(s: seq<char>): (j: nat)
    ensures j <= |s|
  {
    var i := SkipSpace(s, 0);
    if i < |s| && (s[i] == '+' || s[i] == '-') then i + 1 else i
  }

  /** The sign read after the leading white space of s is '-'. */
  predicate Negative(s: seq<char>)
  {
    var i := SkipSpace(s, 0);
    i < |s| && s[i] == '-'
  }

  /** The outcome of a conversion whose digits give v and end at index end. */
  function Clamp(v: int, end: nat): (c: Conversion)
    ensures c.end == end
    ensures c.rangeError <==> v > LongMax || v < LongMin
    ensures !c.rangeError ==> c.value == v
  {
    if v > LongMax then Conversion(LongMax, true, end)
    else if v < LongMin then Conversion(LongMin, true, end)
    else Conversion(v, false, end)
  }

  /**
   * `strtol(s, &p, 10)`: skips white space, reads an optional sign and a
   * run of digits. Without digits nothing is converted: the result is 0 and
   * the end pointer is the start of s. A value beyond the range of `long`
   * is clamped to LongMax or LongMin and raises ERANGE.
   */
  function StrToL(s: seq<char>): (c: Conversion)
    ensures c.end <= |s|
    ensures LongMin <= c.value <= LongMax
    ensures c.rangeError ==> c.value == LongMax || c.value == LongMin
    ensures c.end == 0 ==> c.value == 0 && !c.rangeError
  {
    var j := DigitsStart(s);
    var k := DigitsEnd(s, j);
    if k == j then Conversion(0, false, 0)
    else
      var m: int := DigitsValue(s[j..k]);
      Clamp(if Negative(s) then -m else m, k)
  }

  /**
   * The test of temp.c:209-213: the argument is an interval when the
   * conversion raised no error, stopped at the end of the string and gave
   * a value of at least IntervalMin.
   */
  function ParseInterval(arg: seq<char>): (r: Option<int>)
    ensures r.Some? ==> IntervalMin <= r.value <= LongMax
  {
    var c := StrToL(arg);
    if c.rangeError || c.end != |arg| || c.value < IntervalMin then None else Some(c.value)
  }

  /** The decimal rendering of v, most significant digit first, without sign or leading zeros. */
  function Decimal(v: nat): (ds: seq<char>)
    ensures ds != []
    ensures forall k :: 0 <= k < |ds| ==> IsDigit(ds[k])
    ensures DigitsValue(ds) == v
  {
    var last := ['0' + (v % 10) as char];
    assert last[0] as int - '0' as int == v % 10;
    if v < 10 then last
    else
      var ds := Decimal(v / 10) + last;
      assert ds[..|ds| - 1] == Decimal(v / 10);
      ds
  }

  /** A run of digits up to the end of s is read in full. */
  lemma DigitsToEnd(s: seq<char>, j: nat)
    requires j <= |s|
    requires forall k :: j <= k < |s| ==> IsDigit(s[k])
    ensures DigitsEnd(s, j) == |s|
  {
  }

  /** SkipSpace is the first index at or after i that is not white space. */
  lemma SkipSpaceIs(s: seq<char>, i: nat, j: nat)
    requires i <= j <= |s|
    requires forall k :: i <= k < j ==> IsSpace(s[k])
    requires j < |s| ==> !IsSpace(s[j])
    ensures SkipSpace(s, i) == j
  {
  }

  /** DigitsEnd is the first index at or after i that is not a digit. */
  lemma DigitsEndIs(s: seq<char>, i: nat, j: nat)
    requires i <= j <= |s|
    requires forall k :: i <= k < j ==> IsDigit(s[k])
    requires j < |s| ==> !IsDigit(s[j])
    ensures DigitsEnd(s, i) == j
  {
  }

  /**
   * Round trip: the decimal rendering of v, optionally preceded by '+', is
   * accepted exactly when v is at least IntervalMin and fits a `long`, and
   * then it gives back v.
   */
  lemma ParseDecimal(v: nat, plus: bool)
    ensures var arg := (if plus then "+" else "") + Decimal(v);
            ParseInterval(arg) == if IntervalMin <= v <= LongMax then Some(v) else None
  {
    var arg := (if plus then "+" else "") + Decimal(v);
    if plus {
      PlusDecimalConverts(v);
    } else {
      assert arg == Decimal(v);
      DecimalConverts(v);
    }
    assert StrToL(arg) == Clamp(v, |arg|);
  }

  /** The decimal rendering of v converts to v, clamped, with the end pointer at its end. */
  lemma DecimalConverts(v: nat)
    ensures StrToL(Decimal(v)) == Clamp(v, |Decimal(v)|)
  {
    var ds := Decimal(v);
    assert !IsSpace(ds[0]) && ds[0] != '+' && ds[0] != '-';
    SkipSpaceIs(ds, 0, 0);
    assert DigitsStart(ds) == 0 && !Negative(ds);
    assert ds[0..] == ds;
    ConvertsToEnd(ds, 0, v);
  }

  /** The decimal rendering of v after a '+' converts to v, clamped, with the end pointer at its end. */
  lemma PlusDecimalConverts(v: nat)
    ensures StrToL("+" + Decimal(v)) == Clamp(v, |Decimal(v)| + 1)
  {
    var ds := Decimal(v);
    var arg := "+" + ds;
    assert arg[0] == '+' && !IsSpace(arg[0]);
    SkipSpaceIs(arg, 0, 0);
    assert DigitsStart(arg) == 1 && !Negative(arg);
    assert arg[1..] == ds;
    assert forall k :: 1 <= k < |arg| ==> IsDigit(arg[k]) by {
      forall k | 1 <= k < |arg|
        ensures IsDigit(arg[k])
      {
        assert arg[k] == ds[k - 1];
      }
    }
    ConvertsToEnd(arg, 1, v);
  }

  /** Unsigned digits that run to the end of s convert to their value, clamped, with the end pointer at the end. */
  lemma ConvertsToEnd(s: seq<char>, j: nat, v: nat)
    requires DigitsStart(s) == j < |s| && !Negative(s)
    requires forall k :: j <= k < |s| ==> IsDigit(s[k])
    requires DigitsValue(s[j..]) == v
    ensures StrToL(s) == Clamp(v, |s|)
  {
    DigitsToEnd(s, j);
    assert s[j..|s|] == s[j..];
  }

  /** A negative number is never an interval. */
  lemma NegativeRejected(v: nat)
    ensures ParseInterval("-" + Decimal(v)) == None
  {
    var arg := "-" + Decimal(v);
    assert arg[1..] == Decimal(v);
    SkipSpaceIs(arg, 0, 0);
    assert DigitsStart(arg) == 1 && Negative(arg);
    DigitsToEnd(arg, 1);
  }

  /** Any character after the digits, white space included, makes the argument invalid. */
  lemma TrailingCharacterRejected(v: nat, c: char)
    requires !IsDigit(c)
    ensures ParseInterval(Decimal(v) + [c]) == None
  {
    var ds := Decimal(v);
    var arg := ds + [c];
    assert !IsSpace(arg[0]);
    SkipSpaceIs(arg, 0, 0);
    assert DigitsStart(arg) == 0;
    DigitsEndIs(arg, 0, |ds|);
  }

  /** Putting a white-space character in front of s moves the digits of s one place on. */
  lemma SpaceShiftsDigits(c: char, s: seq<char>)
    requires IsSpace(c)
    ensures DigitsStart([c] + s) == DigitsStart(s) + 1
    ensures Negative([c] + s) == Negative(s)
    ensures DigitsEnd([c] + s, DigitsStart(s) + 1) == DigitsEnd(s, DigitsStart(s)) + 1
  {
    var t := [c] + s;
    var i := SkipSpace(s, 0);
    forall k | 0 <= k < i + 1
      ensures IsSpace(t[k])
    {
      if k > 0 {
        assert t[k] == s[k - 1];
      }
    }
    if i < |s| {
      assert t[i + 1] == s[i];
    }
    SkipSpaceIs(t, 0, i + 1);
    var j := DigitsStart(s);
    var k := DigitsEnd(s, j);
    forall m | j + 1 <= m < k + 1
      ensures IsDigit(t[m])
    {
      assert t[m] == s[m - 1];
    }
    if k < |s| {
      assert t[k + 1] == s[k];
    }
    DigitsEndIs(t, j + 1, k + 1);
  }

  /** Leading white space is skipped: " 5" is accepted as 5. */
  lemma LeadingSpaceSkipped(c: char, s: seq<char>)
    requires IsSpace(c)
    ensures ParseInterval([c] + s) == ParseInterval(s)
  {
    var t := [c] + s;
    SpaceShiftsDigits(c, s);
    var j := DigitsStart(s);
    var k := DigitsEnd(s, j);
    assert t[j + 1..k + 1] == s[j..k];
  }

  /**
   * Every accepted argument is white space, an optional '+' and a run of
   * digits up to the end of the string, whose value is the interval.
   */
  lemma AcceptedShape(arg: seq<char>)
    requires ParseInterval(arg).Some?
    ensures DigitsStart(arg) < |arg| && !Negative(arg)
    ensures forall k :: DigitsStart(arg) <= k < |arg| ==> IsDigit(arg[k])
    ensures DigitsValue(arg[DigitsStart(arg)..]) == ParseInterval(arg).value
  {
    var c := StrToL(arg);
    var j := DigitsStart(arg);
    var k := DigitsEnd(arg, j);
    assert c.end != 0;
    var m: int := DigitsValue(arg[j..k]);
    assert c == Clamp(if Negative(arg) then -m else m, k);
    assert k == |arg|;
    assert arg[j..k] == arg[j..];
  }

  /** `interval = conv`: a `long` stored into the 32-bit `int` global keeps the low 32 bits. */
  function StoredInterval(conv: int): (r: int)
    ensures IntMin <= r <= IntMax
    ensures (r - conv) % 0x1_0000_0000 == 0
  {
    var low := conv % 0x1_0000_0000;
    if low > IntMax then low - 0x1_0000_0000 else low
  }

  /** An accepted interval that fits an `int` is stored unchanged. */
  lemma StoredIntervalExact(conv: int)
    requires IntervalMin <= conv <= IntMax
    ensures StoredInterval(conv) == conv
  {
  }

  /**
   * Every accepted interval above IntMax, from 2147483648 on, is stored as a
   * different, non-positive or smaller `int`.
   */
  lemma LargeIntervalWraps(v: nat)
    requires IntMax < v <= LongMax
    ensures ParseInterval(Decimal(v)) == Some(v)
    ensures StoredInterval(v) != v
  {
    ParseDecimal(v, false);
    assert "" + Decimal(v) == Decimal(v);
  }

  /** What `main` goes on to do. */
  datatype Mode =
    | ShowHelp                      // print the usage text and return 0
    | RunEverySecond(interval: int) // store the interval and run setFanSpeed forever
    | DoNothing                     // an invalid interval: return 0 without output
    | RunOnce                       // run setFanSpeed once

  /**
   * The decision of `main` (temp.c:187-232) on argv, where |argv| is argc
   * and argv[0] the program name.
   */
  function SelectMode(argv: seq<seq<char>>): (m: Mode)
    ensures m == ShowHelp <==> |argv| == 2 && argv[1] == "--help"
    ensures m == RunOnce <==> |argv| != 2
    ensures m == DoNothing <==> |argv| == 2 && argv[1] != "--help" && ParseInterval(argv[1]).None?
    ensures m.RunEverySecond? ==>
              && |argv| == 2
              && ParseInterval(argv[1]).Some?
              && m.interval == StoredInterval(ParseInterval(argv[1]).value)
  {
    if |argv| == 2 && argv[1] == "--help" then ShowHelp
    else if |argv| == 2 then
      match ParseInterval(argv[1])
      case None => DoNothing
      case Some(conv) => RunEverySecond(StoredInterval(conv))
    else RunOnce
  }

  /** "--help" is not mistaken for an interval. */
  lemma HelpIsNotAnInterval()
    ensures ParseInterval("--help") == None
  {
    var s := "--help";
    SkipSpaceIs(s, 0, 0);
    DigitsEndIs(s, 1, 1);
  }
}
