/**
 * The Zeckendorf clock of src/components/FibonacciClock.jsx: the hours,
 * minutes and seconds are each shown as a set of lit plates whose values,
 * taken from the table 1, 2, 3, 5, ..., 89, add up to the field.  The current
 * time and the two toggles are parameters; the table the component loads
 * after its first render is a parameter too, since before that it is empty.
 */
module Clock {
  import opened FibMath
  import opened Digits

  /** The time of day as Date.getHours/getMinutes/getSeconds report it. */
  datatype Time = Time(hours: int, minutes: int, seconds: int)

  predicate ValidTime(t: Time)
  {
    0 <= t.hours < 24 && 0 <= t.minutes < 60 && 0 <= t.seconds < 60
  }

  /** The lit plates of each field. */
  datatype Plates = Plates(hours: seq<int>, minutes: seq<int>, seconds: seq<int>)

  /** The table the component loads: generateFibonacci(10). */
  const ClockTable: seq<int> := [1, 2, 3, 5, 8, 13, 21, 34, 55, 89]

  /** generateFibonacci(n): the seeds 1, 2, then each entry the sum of the two before. */
  method GenerateFibonacci(n: int) returns (fib: seq<int>)
    ensures |fib| == if n < 2 then 2 else n
    ensures FibTable(fib, 2)
  {
    fib := [1, 2];
    var i := 2;
    while i < n
      invariant 2 <= i && |fib| == i
      invariant i <= if n < 2 then 2 else n
      invariant FibTable(fib, 2)
    {
      fib := fib + [fib[i - 1] + fib[i - 2]];
      i := i + 1;
    }
  }

  lemma ClockTableIsFib()
    ensures FibTable(ClockTable, 2)
  {
    FibValues();
    assert Fib(2) == 1 && Fib(3) == 2 && Fib(4) == 3 && Fib(5) == 5 && Fib(6) == 8;
    assert Fib(7) == 13 && Fib(8) == 21;
  }

  /** The table the mounted component holds is 1, 2, 3, ..., 89. */
  method LoadTable() returns (t: seq<int>)
    ensures t == ClockTable
  {
    t := GenerateFibonacci(10);
    ClockTableIsFib();
    assert forall k :: 0 <= k < 10 ==> t[k] == ClockTable[k];
  }

  /** What toZeckendorf(n) returns over the table t. */
  function Zeckendorf(t: seq<int>, n: int): seq<int>
  {
    if n == 0 then [] else ValuesAt(t, Greedy(t, |t|, n))
  }

  /** toZeckendorf(n): scan the table from the top, take what fits, reverse. */
  method ToZeckendorf(t: seq<int>, n: int) returns (result: seq<int>)
    ensures result == Zeckendorf(t, n)
  {
    if n == 0 {
      return [];
    }
    result := GreedyScan(t, n);
  }

  /**
   * With the table loaded, every field value below 144 is shown by table
   * entries that add up to it, ascend, and never include two neighbouring
   * entries of the table; zero lights no plate.
   */
  lemma ZeckendorfPlates(n: int)
    requires 0 <= n < 144
    ensures var r := Zeckendorf(ClockTable, n);
            Sum(r) == n &&
            (n == 0 <==> r == []) &&
            (forall a :: 0 <= a < |r| ==> r[a] in ClockTable) &&
            (forall a, b :: 0 <= a < b < |r| ==> r[a] < r[b]) &&
            (forall a, k :: 0 <= a < |r| - 1 && 0 <= k < 9 && r[a] == ClockTable[k] ==> r[a + 1] != ClockTable[k + 1])
  {
    ClockTableIsFib();
    FibValues();
    GreedyZeckendorf(ClockTable, 2, n);
  }

  /** The decompositions the page documents: 7 = 5 + 2 ... */
  lemma DecomposeSeven()
    ensures Zeckendorf(ClockTable, 7) == [2, 5]
  {
    var t := ClockTable;
    GreedySkipAbove(t, 10, 4, 7);
    GreedySkipAbove(t, 3, 2, 2);
    assert Greedy(t, 4, 7) == Greedy(t, 3, 2) + [3];
    assert Greedy(t, 2, 2) == [] + [1];
    assert Greedy(t, 10, 7) == [1, 3];
    assert ValuesAt(t, [1, 3]) == [2, 5];
  }

  /** ... and 12 = 8 + 3 + 1 ... */
  lemma DecomposeTwelve()
    ensures Zeckendorf(ClockTable, 12) == [1, 3, 8]
  {
    var t := ClockTable;
    GreedySkipAbove(t, 10, 5, 12);
    GreedySkipAbove(t, 4, 3, 4);
    GreedySkipAbove(t, 2, 1, 1);
    assert Greedy(t, 5, 12) == Greedy(t, 4, 4) + [4];
    assert Greedy(t, 3, 4) == Greedy(t, 2, 1) + [2];
    assert Greedy(t, 1, 1) == [] + [0];
    assert Greedy(t, 10, 12) == [0, 2, 4];
    assert ValuesAt(t, [0, 2, 4]) == [1, 3, 8];
  }

  /** ... and the example reading 14:35, whose hour is 13 + 1 ... */
  lemma ReadingHour()
    ensures Zeckendorf(ClockTable, 14) == [1, 13]
  {
    var t := ClockTable;
    GreedySkipAbove(t, 10, 6, 14);
    GreedySkipAbove(t, 5, 1, 1);
    assert Greedy(t, 6, 14) == Greedy(t, 5, 1) + [5];
    assert Greedy(t, 1, 1) == [] + [0];
    assert Greedy(t, 10, 14) == [0, 5];
    assert ValuesAt(t, [0, 5]) == [1, 13];
  }

  /** ... and whose minutes are 34 + 1. */
  lemma ReadingMinutes()
    ensures Zeckendorf(ClockTable, 35) == [1, 34]
  {
    var t := ClockTable;
    GreedySkipAbove(t, 10, 8, 35);
    GreedySkipAbove(t, 7, 1, 1);
    assert Greedy(t, 8, 35) == Greedy(t, 7, 1) + [7];
    assert Greedy(t, 1, 1) == [] + [0];
    assert Greedy(t, 10, 35) == [0, 7];
    assert ValuesAt(t, [0, 7]) == [1, 34];
  }

  /** The hour shown: as is in 24-hour mode, otherwise h % 12 with 0 read as 12. */
  function DisplayHour(h: int, is24Hour: bool): (r: int)
    requires 0 <= h < 24
    ensures is24Hour ==> r == h
    ensures !is24Hour ==> 1 <= r <= 12 && r % 12 == h % 12
  {
    if is24Hour then h else if h % 12 == 0 then 12 else h % 12
  }

  /** 12-hour mode covers 1..12 exactly, with midnight and noon shown as 12. */
  lemma TwelveHourMapping()
    ensures DisplayHour(0, false) == 12 && DisplayHour(12, false) == 12
    ensures DisplayHour(13, false) == 1 && DisplayHour(23, false) == 11
    ensures forall h :: 0 <= h < 24 ==>
              DisplayHour(h, false) == (if h == 0 then 12 else if h <= 12 then h else h - 12)
  {
  }

  /** The plates of the current time (the effect that sets activePlates). */
  function PlatesFor(t: seq<int>, time: Time, is24Hour: bool, showSeconds: bool): Plates
    requires ValidTime(time)
  {
    Plates(Zeckendorf(t, DisplayHour(time.hours, is24Hour)),
           Zeckendorf(t, time.minutes),
           if showSeconds then Zeckendorf(t, time.seconds) else [])
  }

  method ActivePlates(t: seq<int>, time: Time, is24Hour: bool, showSeconds: bool) returns (p: Plates)
    requires ValidTime(time)
    ensures p == PlatesFor(t, time, is24Hour, showSeconds)
    ensures !showSeconds ==> p.seconds == [] && Sum(p.seconds) == 0
  {
    var hours := ToZeckendorf(t, DisplayHour(time.hours, is24Hour));
    var minutes := ToZeckendorf(t, time.minutes);
    var seconds := [];
    if showSeconds {
      seconds := ToZeckendorf(t, time.seconds);
    }
    p := Plates(hours, minutes, seconds);
  }

  /** isDisplayCorrect: each shown field equals calculateSum of its plates. */
  predicate IsDisplayCorrect(p: Plates, time: Time, is24Hour: bool, showSeconds: bool)
    requires ValidTime(time)
  {
    Sum(p.hours) == DisplayHour(time.hours, is24Hour) &&
    Sum(p.minutes) == time.minutes &&
    (!showSeconds || Sum(p.seconds) == time.seconds)
  }

  /** With the table loaded the display is correct at every time of day, in both modes. */
  lemma DisplayAlwaysCorrect(time: Time, is24Hour: bool, showSeconds: bool)
    requires ValidTime(time)
    ensures IsDisplayCorrect(PlatesFor(ClockTable, time, is24Hour, showSeconds), time, is24Hour, showSeconds)
  {
    ZeckendorfPlates(DisplayHour(time.hours, is24Hour));
    ZeckendorfPlates(time.minutes);
    ZeckendorfPlates(time.seconds);
  }

  /** Before the table loads, the display is correct only when every field shown is zero. */
  lemma DisplayBeforeLoad(time: Time, is24Hour: bool, showSeconds: bool)
    requires ValidTime(time)
    ensures IsDisplayCorrect(PlatesFor([], time, is24Hour, showSeconds), time, is24Hour, showSeconds)
            <==> DisplayHour(time.hours, is24Hour) == 0 && time.minutes == 0 && (!showSeconds || time.seconds == 0)
  {
    var p := PlatesFor([], time, is24Hour, showSeconds);
    assert Sum(p.hours) == 0 && Sum(p.minutes) == 0 && Sum(p.seconds) == 0;
  }

  // ---------------------------------------------------------------------
  // formatTraditionalTime
  // ---------------------------------------------------------------------

  /** x.toString().padStart(2, '0') */
  function Pad2(x: nat): string
  {
    var d := DecimalString(x);
    if |d| < 2 then "0" + d else d
  }

  function DigitValue(c: char): int
  {
    c as int - '0' as int
  }

  /** A field below 100 pads to two digits that read back as the field. */
  lemma Pad2Value(x: nat)
    requires x < 100
    ensures |Pad2(x)| == 2 && IsDigits(Pad2(x))
    ensures 10 * DigitValue(Pad2(x)[0]) + DigitValue(Pad2(x)[1]) == x
  {
    if x >= 10 {
      assert DecimalString(x) == DecimalString(x / 10) + ['0' + (x % 10) as char];
    }
  }

  /** formatTraditionalTime: HH:MM, then :SS when the seconds are shown. */
  function FormatTraditionalTime(time: Time, is24Hour: bool, showSeconds: bool): (s: string)
    requires ValidTime(time)
    ensures |s| == if showSeconds then 8 else 5
    ensures s[2] == ':' && (showSeconds ==> s[5] == ':')
    ensures 10 * DigitValue(s[0]) + DigitValue(s[1]) == DisplayHour(time.hours, is24Hour)
    ensures 10 * DigitValue(s[3]) + DigitValue(s[4]) == time.minutes
    ensures showSeconds ==> 10 * DigitValue(s[6]) + DigitValue(s[7]) == time.seconds
    ensures forall k :: 0 <= k < |s| && k % 3 != 2 ==> IsDigit(s[k])
  {
    var h := DisplayHour(time.hours, is24Hour);
    Pad2Value(h);
    Pad2Value(time.minutes);
    Pad2Value(time.seconds);
    Pad2(h) + ":" + Pad2(time.minutes) + (if showSeconds then ":" + Pad2(time.seconds) else "")
  }
}
