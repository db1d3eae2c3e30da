/**
 * The two searches of src/components/FibonacciSearchVisualizer.jsx, with
 * their step logs. Array reads outside the array give JavaScript's
 * `undefined`, for which both `<` and `>` are false and `===` is false; they
 * are modelled as a lookup that returns None.
 */
module Search {
  import opened FibMath

  datatype Option<T> = None | Some(value: T)

  /** a[i] in JavaScript: undefined outside 0 <= i < |a|. */
  function At(a: seq<int>, i: int): (r: Option<int>)
    ensures r.Some? <==> 0 <= i < |a|
    ensures r.Some? ==> r.value == a[i]
  {
    if 0 <= i < |a| then Some(a[i]) else None
  }

  /** x < y where x may be undefined. */
  predicate Below(x: Option<int>, y: int)
  {
    x.Some? && x.value < y
  }

  /** x > y where x may be undefined. */
  predicate Above(x: Option<int>, y: int)
  {
    x.Some? && x.value > y
  }

  predicate Sorted(a: seq<int>)
  {
    forall i, j :: 0 <= i <= j < |a| ==> a[i] <= a[j]
  }

  function Min(x: int, y: int): int
  {
    if x <= y then x else y
  }

  datatype Outcome = Found(index: int) | NotFound

  /** One entry of the binary-search log. */
  datatype BinaryStep = BinaryStep(left: int, right: int, mid: int, target: int, comparisons: nat, step: nat)

  /** One entry of the Fibonacci-search log. */
  datatype FibStep = FibStep(left: int, right: int, mid: int, target: int, comparisons: nat, step: nat,
                             fibM: int, fibValue: int)

  /** generateFibonacci(n): the table fib[0..n], never shorter than [0, 1]. */
  method GenerateFibonacci(n: int) returns (fib: seq<int>)
    ensures |fib| == if n < 1 then 2 else n + 1
    ensures FibTable(fib, 0)
  {
    fib := [0, 1];
    var i := 2;
    while i <= n
      invariant 2 <= i <= if n < 2 then 2 else n + 1
      invariant |fib| == i
      invariant forall k :: 0 <= k < i ==> fib[k] == Fib(k)
    {
      fib := fib + [fib[i - 1] + fib[i - 2]];
      i := i + 1;
    }
  }

  /** generateArray(size): the odd numbers 1, 3, 5, ..., strictly increasing. */
  method GenerateArray(size: int) returns (arr: seq<int>)
    ensures |arr| == if size < 0 then 0 else size
    ensures forall k :: 0 <= k < |arr| ==> arr[k] == 2 * k + 1
    ensures forall i, j :: 0 <= i < j < |arr| ==> arr[i] < arr[j]
  {
    arr := [];
    var i := 0;
    while i < size
      invariant 0 <= i <= if size < 0 then 0 else size
      invariant |arr| == i
      invariant forall k :: 0 <= k < i ==> arr[k] == 2 * k + 1
    {
      arr := arr + [i * 2 + 1];
      i := i + 1;
    }
  }

  /** binarySearch(arr, target). */
  method BinarySearch(arr: seq<int>, target: int) returns (outcome: Outcome, steps: seq<BinaryStep>, comparisons: nat)
    ensures outcome.Found? ==> 0 <= outcome.index < |arr| && arr[outcome.index] == target
    ensures Sorted(arr) && outcome.NotFound? ==> target !in arr
    ensures comparisons == |steps| <= |arr|
    ensures forall k :: 0 <= k < |steps| ==> steps[k].comparisons == k + 1 && steps[k].step == k
    ensures forall k :: 0 <= k < |steps| ==>
              0 <= steps[k].left <= steps[k].mid <= steps[k].right < |arr|
    ensures forall k :: 0 <= k < |steps| ==> steps[k].target == target
    ensures outcome.Found? ==> |steps| > 0 && steps[|steps| - 1].mid == outcome.index
  {
    var left, right := 0, |arr| - 1;
    steps, comparisons := [], 0;
    while left <= right
      invariant 0 <= left <= right + 1 <= |arr|
      invariant comparisons == |steps|
      invariant comparisons + (right - left + 1) <= |arr|
      invariant forall k :: 0 <= k < |steps| ==> steps[k].comparisons == k + 1 && steps[k].step == k
      invariant forall k :: 0 <= k < |steps| ==>
                  0 <= steps[k].left <= steps[k].mid <= steps[k].right < |arr|
      invariant forall k :: 0 <= k < |steps| ==> steps[k].target == target
      invariant Sorted(arr) ==> forall k :: 0 <= k < |arr| && arr[k] == target ==> left <= k <= right
      decreases right - left
    {
      var mid := (left + right) / 2;
      comparisons := comparisons + 1;
      steps := steps + [BinaryStep(left, right, mid, target, comparisons, |steps|)];
      if arr[mid] == target {
        return Found(mid), steps, comparisons;
      } else if arr[mid] < target {
        left := mid + 1;
      } else {
        right := mid - 1;
      }
    }
    outcome := NotFound;
  }

  /** The index fibonacciSearch starts from: the least m with fib[m] >= n, or 21 when fib[m] runs out first. */
  function StartIndex(n: int): (m: nat)
    ensures m <= 21
    ensures forall j :: 0 <= j < m ==> Fib(j) < n
    ensures m < 21 ==> Fib(m) >= n
  {
    StartFrom(n, 0)
  }

  function StartFrom(n: int, j: nat): (m: nat)
    requires j <= 21
    requires forall k :: 0 <= k < j ==> Fib(k) < n
    ensures j <= m <= 21
    ensures forall k :: 0 <= k < m ==> Fib(k) < n
    ensures m < 21 ==> Fib(m) >= n
    decreases 21 - j
  {
    if j == 21 || Fib(j) >= n then j else StartFrom(n, j + 1)
  }

  /** Below 6766 elements the start index has fib[m] >= n, and it is never 2. */
  lemma StartIndexFits(n: int)
    requires n <= 6765
    ensures StartIndex(n) <= 20
    ensures StartIndex(n) != 2
  {
    FibValues();
    assert Fib(1) == 1 && Fib(2) == 1 && Fib(20) == 6765;
  }

  /** The loop that finds the first fib[fibM] >= n, stopping where fib runs out. */
  method SmallestFibAtLeast(fib: seq<int>, n: int) returns (fibM: nat)
    requires |fib| == 21 && FibTable(fib, 0)
    ensures IsStart(n, fibM)
  {
    fibM := 0;
    while Below(At(fib, fibM), n)
      invariant 0 <= fibM <= 21 && forall j :: 0 <= j < fibM ==> Fib(j) < n
      decreases 21 - fibM
    {
      fibM := fibM + 1;
    }
  }

  /** m is where the search for the first fib[m] >= n stops. */
  ghost predicate IsStart(n: int, m: int)
  {
    0 <= m <= 21 && (forall j :: 0 <= j < m ==> Fib(j) < n) && (m < 21 ==> Fib(m) >= n)
  }

  /** The table fibonacciSearch builds: fib[0..20]. */
  function FibTable20(): (t: seq<int>)
    ensures |t| == 21 && FibTable(t, 0) && NonNegative(t)
  {
    seq(21, (k: int) requires 0 <= k => Fib(k))
  }

  /** The outcome and the log of a Fibonacci search. */
  datatype SearchRun = SearchRun(outcome: Outcome, steps: seq<FibStep>)

  /**
   * One round of the probe loop from the window (offset, fibM) after count
   * probes: the log entry, whether the probe hit, and the next window. With
   * guarded false this is the code as written; with guarded true an
   * out-of-range probe counts as greater than the target.
   */
  datatype Probe = Probe(step: FibStep, hit: bool, offset: int, fibM: int)

  function ProbeAt(fib: seq<int>, arr: seq<int>, target: int, guarded: bool, offset: int, fibM: int, count: nat): (p: Probe)
    requires 1 < fibM <= |fib|
    ensures p.hit || p.fibM == fibM - 1 || p.fibM == fibM - 2
  {
    var n := |arr|;
    var i := Min(offset + fib[fibM - 2], n - 1);
    var step := FibStep(offset + 1, Min(offset + fib[fibM - 1], n - 1), i, target, count + 1, count,
                        fibM, fib[fibM - 1]);
    var probe := At(arr, i);
    if Below(probe, target) then Probe(step, false, i, fibM - 1)
    else if Above(probe, target) || (guarded && probe.None?) then Probe(step, false, offset, fibM - 2)
    else Probe(step, true, offset, fibM)
  }

  /**
   * The probe loop of fibonacciSearch from the window (offset, fibM), with
   * count probes already logged, followed by the final check at fibM = 1.
   */
  function Run(fib: seq<int>, arr: seq<int>, target: int, guarded: bool, offset: int, fibM: int, count: nat): SearchRun
    requires fibM <= |fib|
    decreases fibM
  {
    if fibM > 1 then
      var p := ProbeAt(fib, arr, target, guarded, offset, fibM, count);
      if p.hit then SearchRun(Found(p.step.mid), [p.step])
      else
        var rest := Run(fib, arr, target, guarded, p.offset, p.fibM, count + 1);
        SearchRun(rest.outcome, [p.step] + rest.steps)
    else if fibM == 1 && At(arr, offset + 1) == Some(target) then
      SearchRun(Found(offset + 1), [FibStep(offset + 1, offset + 1, offset + 1, target, count + 1, count, 1, 1)])
    else
      SearchRun(NotFound, [])
  }

  predicate NonNegative(s: seq<int>)
  {
    forall k :: 0 <= k < |s| ==> s[k] >= 0
  }

  /**
   * The log: entry k is probe number count + k + 1, the fibM values strictly
   * decrease from the starting one, and every probe index is -1 or inside the array.
   */
  lemma {:induction false} RunLog(fib: seq<int>, arr: seq<int>, target: int, guarded: bool, offset: int, fibM: int, count: nat)
    requires NonNegative(fib) && fibM <= |fib| && -1 <= offset < |arr|
    ensures var r := Run(fib, arr, target, guarded, offset, fibM, count);
            (forall k :: 0 <= k < |r.steps| ==>
               r.steps[k].comparisons == count + k + 1 && r.steps[k].step == count + k &&
               r.steps[k].target == target && -1 <= r.steps[k].mid < |arr| && r.steps[k].fibM <= fibM) &&
            (|r.steps| > 0 ==> r.steps[0].fibM == fibM) &&
            (forall a, b :: 0 <= a < b < |r.steps| ==> r.steps[a].fibM > r.steps[b].fibM)
    decreases fibM
  {
    if fibM > 1 {
      var p := ProbeAt(fib, arr, target, guarded, offset, fibM, count);
      if !p.hit {
        RunLog(fib, arr, target, guarded, p.offset, p.fibM, count + 1);
      }
    }
  }

  /**
   * A reported index is -1 or holds the target; with the guard it is never -1.
   */
  lemma {:induction false} RunSound(fib: seq<int>, arr: seq<int>, target: int, guarded: bool, offset: int, fibM: int, count: nat)
    requires NonNegative(fib) && fibM <= |fib| && -1 <= offset < |arr|
    ensures var r := Run(fib, arr, target, guarded, offset, fibM, count);
            r.outcome.Found? ==> -1 <= r.outcome.index < |arr| &&
                                 (r.outcome.index >= 0 ==> arr[r.outcome.index] == target) &&
                                 (guarded ==> r.outcome.index >= 0)
    decreases fibM
  {
    if fibM > 1 {
      var p := ProbeAt(fib, arr, target, guarded, offset, fibM, count);
      if !p.hit {
        RunSound(fib, arr, target, guarded, p.offset, p.fibM, count + 1);
      }
    }
  }

  /** While the window holds the target, the search finds it. */
  lemma {:induction false} RunComplete(fib: seq<int>, arr: seq<int>, target: int, guarded: bool, t: int, offset: int,
                                       fibM: int, fibM0: int, count: nat)
    requires FibTable(fib, 0) && fibM <= |fib|
    requires Tracking(arr, target, t, offset, fibM, fibM0)
    ensures var r := Run(fib, arr, target, guarded, offset, fibM, count);
            r.outcome.Found? && 0 <= r.outcome.index < |arr| && arr[r.outcome.index] == target
    decreases fibM
  {
    if fibM > 1 {
      var i := Min(offset + fib[fibM - 2], |arr| - 1);
      TrackingStep(arr, target, t, offset, fibM, fibM0, i);
      var p := ProbeAt(fib, arr, target, guarded, offset, fibM, count);
      if !p.hit {
        RunComplete(fib, arr, target, guarded, t, p.offset, p.fibM, fibM0, count + 1);
      }
    } else {
      TrackingEnd(arr, target, t, offset, fibM, fibM0);
    }
  }

  /**
   * Without the guard, a target below the first element is reported found
   * (at index -1) exactly when the search starts from an even fibM.
   */
  lemma {:induction false} RunBelowFirst(fib: seq<int>, arr: seq<int>, target: int, fibM: int, count: nat)
    requires FibTable(fib, 0) && 1 <= fibM <= |fib|
    requires BelowFirst(arr, target)
    ensures var r := Run(fib, arr, target, false, -1, fibM, count);
            (r.outcome.Found? <==> fibM % 2 == 0) && (r.outcome.Found? ==> r.outcome.index == -1)
    decreases fibM
  {
    if fibM > 1 {
      var i := Min(-1 + fib[fibM - 2], |arr| - 1);
      BelowFirstStep(arr, target, fibM, i);
      if fibM > 2 {
        RunBelowFirst(fib, arr, target, fibM - 2, count + 1);
        EvenShift(fibM);
      }
    }
  }

  /**
   * Without the guard, a run reports index -1 only from offset -1, and only
   * when it is at fibM = 2 or a probe has already found arr[0] greater than
   * the target: the only probe outside a non-empty array is the one at
   * offset -1 + fib[0].
   */
  lemma {:induction false} RunMinusOne(fib: seq<int>, arr: seq<int>, target: int, offset: int, fibM: int, count: nat)
    requires FibTable(fib, 0) && fibM <= |fib| && -1 <= offset < |arr| && |arr| >= 1
    ensures Run(fib, arr, target, false, offset, fibM, count).outcome == Found(-1) ==>
              offset == -1 && (fibM == 2 || target < arr[0])
    decreases fibM
  {
    if fibM > 1 {
      var p := ProbeAt(fib, arr, target, false, offset, fibM, count);
      assert fib[fibM - 2] == Fib(fibM - 2) && fib[fibM - 1] == Fib(fibM - 1);
      if fibM > 2 {
        FibMonotone(1, fibM - 2);
      }
      if !p.hit {
        RunMinusOne(fib, arr, target, p.offset, p.fibM, count + 1);
        assert Fib(2) == 1;
      }
    }
  }

  /** fibonacciSearch(arr, target), with the out-of-range guard when guarded holds. */
  method FibonacciSearchWith(arr: seq<int>, target: int, guarded: bool)
    returns (outcome: Outcome, steps: seq<FibStep>, comparisons: nat)
    ensures SearchRun(outcome, steps) == Run(FibTable20(), arr, target, guarded, -1, StartIndex(|arr|), 0)
    ensures comparisons == |steps|
  {
    var fib := GenerateFibonacci(20);
    var fibM := SmallestFibAtLeast(fib, |arr|);
    outcome, steps, comparisons := ProbeLoop(arr, target, guarded, fib, fibM);
    StartUnique(|arr|, fibM);
    assert fib == FibTable20();
  }

  /** The probe loop and the final check of fibonacciSearch, from the start index fibM. */
  method ProbeLoop(arr: seq<int>, target: int, guarded: bool, fib: seq<int>, fibM0: int)
    returns (outcome: Outcome, steps: seq<FibStep>, comparisons: nat)
    requires 0 <= fibM0 <= |fib|
    ensures SearchRun(outcome, steps) == Run(fib, arr, target, guarded, -1, fibM0, 0)
    ensures comparisons == |steps|
  {
    var fibM := fibM0;
    ghost var whole := Run(fib, arr, target, guarded, -1, fibM, 0);
    var offset := -1;
    steps, comparisons := [], 0;
    while fibM > 1
      invariant 0 <= fibM <= |fib|
      invariant comparisons == |steps|
      invariant var rest := Run(fib, arr, target, guarded, offset, fibM, |steps|);
                whole == SearchRun(rest.outcome, steps + rest.steps)
      decreases fibM
    {
      ghost var before, offset0, fibM0 := steps, offset, fibM;
      var hit, i;
      hit, i, offset, fibM, steps := ProbeStep(arr, target, guarded, fib, offset, fibM, steps);
      comparisons := comparisons + 1;
      if hit {
        return Found(i), steps, comparisons;
      }
      RunAfterMiss(fib, arr, target, guarded, before, offset0, fibM0, offset, fibM);
    }
    if fibM == 1 && At(arr, offset + 1) == Some(target) {
      comparisons := comparisons + 1;
      steps := steps + [FibStep(offset + 1, offset + 1, offset + 1, target, comparisons, |steps|, 1, 1)];
      return Found(offset + 1), steps, comparisons;
    }
    outcome := NotFound;
  }

  /** One round of the probe loop: log the probe, then compare and narrow the window. */
  method ProbeStep(arr: seq<int>, target: int, guarded: bool, fib: seq<int>, offset0: int, fibM0: int, steps0: seq<FibStep>)
    returns (hit: bool, i: int, offset: int, fibM: int, steps: seq<FibStep>)
    requires 1 < fibM0 <= |fib|
    ensures var p := ProbeAt(fib, arr, target, guarded, offset0, fibM0, |steps0|);
            hit == p.hit && steps == steps0 + [p.step] && i == p.step.mid &&
            (!hit ==> offset == p.offset && fibM == p.fibM)
  {
    var n := |arr|;
    i := Min(offset0 + fib[fibM0 - 2], n - 1);
    steps := steps0 + [FibStep(offset0 + 1, Min(offset0 + fib[fibM0 - 1], n - 1), i, target, |steps0| + 1,
                               |steps0|, fibM0, fib[fibM0 - 1])];
    var probe := At(arr, i);
    hit, offset, fibM := false, offset0, fibM0;
    if Below(probe, target) {
      fibM := fibM0 - 1;
      offset := i;
    } else if Above(probe, target) || (guarded && probe.None?) {
      fibM := fibM0 - 2;
    } else {
      hit := true;
    }
  }

  /** After a miss, the rest of the run continues from the narrowed window. */
  lemma RunAfterMiss(fib: seq<int>, arr: seq<int>, target: int, guarded: bool, before: seq<FibStep>,
                     offset0: int, fibM0: int, offset: int, fibM: int)
    requires 1 < fibM0 <= |fib|
    requires var p := ProbeAt(fib, arr, target, guarded, offset0, fibM0, |before|);
             !p.hit && offset == p.offset && fibM == p.fibM
    ensures var p := ProbeAt(fib, arr, target, guarded, offset0, fibM0, |before|);
            var run := Run(fib, arr, target, guarded, offset0, fibM0, |before|);
            var rest := Run(fib, arr, target, guarded, offset, fibM, |before| + 1);
            SearchRun(run.outcome, before + run.steps) == SearchRun(rest.outcome, (before + [p.step]) + rest.steps)
  {
    var p := ProbeAt(fib, arr, target, guarded, offset0, fibM0, |before|);
    var rest := Run(fib, arr, target, guarded, offset, fibM, |before| + 1);
    assert before + ([p.step] + rest.steps) == (before + [p.step]) + rest.steps;
  }

  /** The target lies left of every element. */
  predicate BelowFirst(arr: seq<int>, target: int)
  {
    Sorted(arr) && |arr| >= 1 && target < arr[0]
  }

  /**
   * While nothing smaller than the target has been seen, a probe from fibM >= 3
   * lands inside the array on an element greater than the target, and the
   * probe from fibM = 2 lands at index -1.
   */
  lemma BelowFirstStep(arr: seq<int>, target: int, fibM: int, i: int)
    requires BelowFirst(arr, target) && fibM >= 2
    requires i == Min(-1 + Fib(fibM - 2), |arr| - 1)
    ensures fibM == 2 ==> i == -1
    ensures fibM > 2 ==> 0 <= i < |arr| && arr[i] > target
  {
    if fibM > 2 {
      FibMonotone(1, fibM - 2);
      assert arr[0] <= arr[i];
    }
  }

  /**
   * The search window of a sorted array holding the target at t: the target
   * lies in (offset, offset + fib[fibM]], and while offset is still -1 the
   * window is strictly narrower unless no probe has been made.
   */
  ghost predicate Tracking(arr: seq<int>, target: int, t: int, offset: int, fibM: int, fibM0: int)
  {
    Sorted(arr) && 0 <= t < |arr| && arr[t] == target && -1 <= offset &&
    fibM0 <= 20 && fibM0 != 2 && 0 <= fibM <= fibM0 &&
    offset < t <= offset + Fib(fibM) &&
    (offset == -1 ==> fibM == fibM0 || t <= Fib(fibM) - 2)
  }

  /** A probe keeps the window around the target and never falls outside the array. */
  lemma TrackingStep(arr: seq<int>, target: int, t: int, offset: int, fibM: int, fibM0: int, i: int)
    requires Tracking(arr, target, t, offset, fibM, fibM0) && fibM > 1
    requires i == Min(offset + Fib(fibM - 2), |arr| - 1)
    ensures 0 <= i < |arr|
    ensures arr[i] < target ==> Tracking(arr, target, t, i, fibM - 1, fibM0)
    ensures arr[i] > target ==> Tracking(arr, target, t, offset, fibM - 2, fibM0)
  {
    if fibM > 2 {
      FibMonotone(1, fibM - 2);
    }
    assert Fib(0) == 0 && Fib(2) == 1;
    assert arr[i] < target ==> i < t;
    assert arr[i] > target ==> t < i;
  }

  /** When the loop stops, the target is the element right after offset. */
  lemma TrackingEnd(arr: seq<int>, target: int, t: int, offset: int, fibM: int, fibM0: int)
    requires Tracking(arr, target, t, offset, fibM, fibM0) && fibM <= 1
    ensures fibM == 1 && t == offset + 1
  {
    assert Fib(0) == 0 && Fib(1) == 1;
  }

  lemma EvenShift(x: int)
    ensures (x - 2) % 2 == 0 <==> x % 2 == 0
  {
  }

  lemma StartUnique(n: int, m: nat)
    requires IsStart(n, m)
    ensures m == StartIndex(n)
  {
    var s := StartIndex(n);
    var fs, fm := Fib(s), Fib(m);
  }

  /** fibonacciSearch as written. */
  method FibonacciSearch(arr: seq<int>, target: int) returns (outcome: Outcome, steps: seq<FibStep>, comparisons: nat)
    ensures comparisons == |steps|
    ensures forall k :: 0 <= k < |steps| ==> steps[k].comparisons == k + 1 && steps[k].step == k
    ensures |steps| > 0 ==> steps[0].fibM == StartIndex(|arr|)
    ensures forall a, b :: 0 <= a < b < |steps| ==> steps[a].fibM > steps[b].fibM
    ensures outcome.Found? ==> -1 <= outcome.index < |arr|
    ensures outcome.Found? && outcome.index >= 0 ==> arr[outcome.index] == target
    ensures Sorted(arr) && |arr| <= 6765 && target in arr ==>
              outcome.Found? && 0 <= outcome.index < |arr| && arr[outcome.index] == target
    ensures BelowFirst(arr, target) ==>
              (outcome.Found? <==> StartIndex(|arr|) % 2 == 0) && (outcome.Found? ==> outcome.index == -1)
    ensures outcome == Found(-1) ==> |arr| >= 1 && target < arr[0]
  {
    outcome, steps, comparisons := FibonacciSearchWith(arr, target, false);
    SearchMinusOne(arr, target);
    SearchLog(arr, target, false);
    SearchSound(arr, target, false);
    if Sorted(arr) && |arr| <= 6765 && target in arr {
      SearchComplete(arr, target, false);
    }
    if BelowFirst(arr, target) {
      assert Fib(0) == 0;
      RunBelowFirst(FibTable20(), arr, target, StartIndex(|arr|), 0);
    }
  }

  /** What every run from the starting window satisfies: its log ... */
  lemma SearchLog(arr: seq<int>, target: int, guarded: bool)
    ensures var r := Run(FibTable20(), arr, target, guarded, -1, StartIndex(|arr|), 0);
            (forall k :: 0 <= k < |r.steps| ==> r.steps[k].comparisons == k + 1 && r.steps[k].step == k) &&
            (|r.steps| > 0 ==> r.steps[0].fibM == StartIndex(|arr|)) &&
            (forall a, b :: 0 <= a < b < |r.steps| ==> r.steps[a].fibM > r.steps[b].fibM)
  {
    RunLog(FibTable20(), arr, target, guarded, -1, StartIndex(|arr|), 0);
  }

  /** ... the index it reports ... */
  lemma SearchSound(arr: seq<int>, target: int, guarded: bool)
    ensures var r := Run(FibTable20(), arr, target, guarded, -1, StartIndex(|arr|), 0);
            r.outcome.Found? ==> -1 <= r.outcome.index < |arr| &&
                                 (r.outcome.index >= 0 ==> arr[r.outcome.index] == target) &&
                                 (guarded ==> r.outcome.index >= 0)
  {
    RunSound(FibTable20(), arr, target, guarded, -1, StartIndex(|arr|), 0);
  }

  /** ... and, on a sorted array of at most 6765 elements, that it finds a target present. */
  lemma SearchComplete(arr: seq<int>, target: int, guarded: bool)
    requires Sorted(arr) && |arr| <= 6765 && target in arr
    ensures var r := Run(FibTable20(), arr, target, guarded, -1, StartIndex(|arr|), 0);
            r.outcome.Found? && 0 <= r.outcome.index < |arr| && arr[r.outcome.index] == target
  {
    var m := StartIndex(|arr|);
    var t :| 0 <= t < |arr| && arr[t] == target;
    StartIndexFits(|arr|);
    RunComplete(FibTable20(), arr, target, guarded, t, -1, m, m, 0);
  }

  /**
   * The search as written reports index -1 only when the array is not empty
   * and the target lies below its first element; on a sorted array that is
   * exactly when it does so from an even start index.
   */
  lemma SearchMinusOne(arr: seq<int>, target: int)
    ensures var r := Run(FibTable20(), arr, target, false, -1, StartIndex(|arr|), 0);
            (r.outcome == Found(-1) ==> |arr| >= 1 && target < arr[0]) &&
            (Sorted(arr) ==> (r.outcome == Found(-1) <==> BelowFirst(arr, target) && StartIndex(|arr|) % 2 == 0))
  {
    var m := StartIndex(|arr|);
    assert Fib(1) == 1 && Fib(2) == 1;
    if |arr| >= 1 {
      RunMinusOne(FibTable20(), arr, target, -1, m, 0);
      if BelowFirst(arr, target) {
        assert Fib(0) == 0;
        RunBelowFirst(FibTable20(), arr, target, m, 0);
      }
    }
  }

  /** fibonacciSearch with the out-of-range probe counted as greater than the target. */
  method FibonacciSearchGuarded(arr: seq<int>, target: int) returns (outcome: Outcome, steps: seq<FibStep>, comparisons: nat)
    ensures comparisons == |steps|
    ensures forall k :: 0 <= k < |steps| ==> steps[k].comparisons == k + 1 && steps[k].step == k
    ensures forall a, b :: 0 <= a < b < |steps| ==> steps[a].fibM > steps[b].fibM
    ensures outcome.Found? ==> 0 <= outcome.index < |arr| && arr[outcome.index] == target
    ensures Sorted(arr) && |arr| <= 6765 ==> (outcome.Found? <==> target in arr)
  {
    outcome, steps, comparisons := FibonacciSearchWith(arr, target, true);
    SearchLog(arr, target, true);
    SearchSound(arr, target, true);
    if Sorted(arr) && |arr| <= 6765 && target in arr {
      SearchComplete(arr, target, true);
    }
  }

  /**
   * The default page: 50 odd numbers, where the search starts at fib[10] = 55.
   * Searching for 0, which is absent, reports it found at index -1.
   */
  method DefaultArrayMissingTarget() returns (outcome: Outcome)
    ensures outcome == Found(-1)
  {
    var arr := GenerateArray(50);
    FibValues();
    assert StartIndex(50) == 10 by {
      StartUnique(50, 10);
    }
    var o, _, _ := FibonacciSearch(arr, 0);
    outcome := o;
  }

  /** The same search with the guard reports the absent target as not found. */
  method DefaultArrayMissingTargetGuarded() returns (outcome: Outcome)
    ensures outcome == NotFound
  {
    var arr := GenerateArray(50);
    var o, _, _ := FibonacciSearchGuarded(arr, 0);
    outcome := o;
    assert forall k :: 0 <= k < |arr| ==> arr[k] != 0;
    assert 0 !in arr;
  }
}
