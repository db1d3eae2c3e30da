/**
 * Shared mathematics for the model: the Fibonacci numbers as a reference
 * definition, facts about their growth, a few concrete values the programs
 * depend on, sums of integer lists, and the greedy Zeckendorf decomposition
 * over a table of consecutive Fibonacci numbers, which the clock and the
 * coding explorer both run.
 */
module FibMath {

  /** The Fibonacci numbers, F(0) = 0, F(1) = 1. */
  function Fib(n: nat): nat
  {
    if n < 2 then n else Fib(n - 1) + Fib(n - 2)
  }

  /** x is some Fibonacci number. */
  ghost predicate IsFib(x: int)
  {
    exists k: nat :: Fib(k) == x
  }

  /** JavaScript's Number.MAX_SAFE_INTEGER, 2^53 - 1. */
  const MaxSafe: int := 9007199254740991

  /** The concrete terms that the programs' small tables rest on. */
  lemma FibValues()
    ensures Fib(9) == 34 && Fib(10) == 55 && Fib(11) == 89 && Fib(12) == 144
    ensures Fib(20) == 6765 && Fib(21) == 10946
  {
    assert Fib(2) == 1;
    assert Fib(3) == 2;
    assert Fib(4) == 3;
    assert Fib(5) == 5;
    assert Fib(6) == 8;
    assert Fib(7) == 13;
    assert Fib(8) == 21;
    assert Fib(9) == 34;
    assert Fib(10) == 55;
    assert Fib(11) == 89;
    assert Fib(12) == 144;
    assert Fib(13) == 233;
    assert Fib(14) == 377;
    assert Fib(15) == 610;
    assert Fib(16) == 987;
    assert Fib(17) == 1597;
    assert Fib(18) == 2584;
    assert Fib(19) == 4181;
    assert Fib(20) == 6765;
    assert Fib(21) == 10946;
  }

  lemma FibMidValues()
    ensures Fib(49) == 7778742049 && Fib(50) == 12586269025
  {
    FibValues();
    assert Fib(22) == 17711;
    assert Fib(23) == 28657;
    assert Fib(24) == 46368;
    assert Fib(25) == 75025;
    assert Fib(26) == 121393;
    assert Fib(27) == 196418;
    assert Fib(28) == 317811;
    assert Fib(29) == 514229;
    assert Fib(30) == 832040;
    assert Fib(31) == 1346269;
    assert Fib(32) == 2178309;
    assert Fib(33) == 3524578;
    assert Fib(34) == 5702887;
    assert Fib(35) == 9227465;
    assert Fib(36) == 14930352;
    assert Fib(37) == 24157817;
    assert Fib(38) == 39088169;
    assert Fib(39) == 63245986;
    assert Fib(40) == 102334155;
    assert Fib(41) == 165580141;
    assert Fib(42) == 267914296;
    assert Fib(43) == 433494437;
    assert Fib(44) == 701408733;
    assert Fib(45) == 1134903170;
    assert Fib(46) == 1836311903;
    assert Fib(47) == 2971215073;
    assert Fib(48) == 4807526976;
    assert Fib(49) == 7778742049;
    assert Fib(50) == 12586269025;
  }

  /** The terms around the 2^53 threshold and the last slider position. */
  lemma FibLargeValues()
    ensures Fib(78) == 8944394323791464 && Fib(79) == 14472334024676221
    ensures Fib(87) == 679891637638612258 && Fib(88) == 1100087778366101931
    ensures Fib(99) == 218922995834555169026
  {
    FibMidValues();
    assert Fib(51) == 20365011074;
    assert Fib(52) == 32951280099;
    assert Fib(53) == 53316291173;
    assert Fib(54) == 86267571272;
    assert Fib(55) == 139583862445;
    assert Fib(56) == 225851433717;
    assert Fib(57) == 365435296162;
    assert Fib(58) == 591286729879;
    assert Fib(59) == 956722026041;
    assert Fib(60) == 1548008755920;
    assert Fib(61) == 2504730781961;
    assert Fib(62) == 4052739537881;
    assert Fib(63) == 6557470319842;
    assert Fib(64) == 10610209857723;
    assert Fib(65) == 17167680177565;
    assert Fib(66) == 27777890035288;
    assert Fib(67) == 44945570212853;
    assert Fib(68) == 72723460248141;
    assert Fib(69) == 117669030460994;
    assert Fib(70) == 190392490709135;
    assert Fib(71) == 308061521170129;
    assert Fib(72) == 498454011879264;
    assert Fib(73) == 806515533049393;
    assert Fib(74) == 1304969544928657;
    assert Fib(75) == 2111485077978050;
    assert Fib(76) == 3416454622906707;
    assert Fib(77) == 5527939700884757;
    assert Fib(78) == 8944394323791464;
    assert Fib(79) == 14472334024676221;
    assert Fib(80) == 23416728348467685;
    assert Fib(81) == 37889062373143906;
    assert Fib(82) == 61305790721611591;
    assert Fib(83) == 99194853094755497;
    assert Fib(84) == 160500643816367088;
    assert Fib(85) == 259695496911122585;
    assert Fib(86) == 420196140727489673;
    assert Fib(87) == 679891637638612258;
    assert Fib(88) == 1100087778366101931;
    assert Fib(89) == 1779979416004714189;
    assert Fib(90) == 2880067194370816120;
    assert Fib(91) == 4660046610375530309;
    assert Fib(92) == 7540113804746346429;
    assert Fib(93) == 12200160415121876738;
    assert Fib(94) == 19740274219868223167;
    assert Fib(95) == 31940434634990099905;
    assert Fib(96) == 51680708854858323072;
    assert Fib(97) == 83621143489848422977;
    assert Fib(98) == 135301852344706746049;
  }


  /** F is non-decreasing. */
  lemma {:induction false} FibMonotone(i: nat, j: nat)
    requires i <= j
    ensures Fib(i) <= Fib(j)
    decreases j - i
  {
    if i < j {
      FibMonotone(i, j - 1);
      assert Fib(j - 1) <= Fib(j);
    }
  }

  /** From index 2 on, F is strictly increasing. */
  lemma {:induction false} FibStrict(i: nat, j: nat)
    requires 2 <= i < j
    ensures Fib(i) < Fib(j)
  {
    FibMonotone(i, j - 1);
    FibMonotone(1, j - 2);
  }

  /** A value strictly between F(k) and F(k+1) is no Fibonacci number. */
  lemma FibBetween(k: nat, m: nat)
    requires k >= 1 && Fib(k) < Fib(m) <= Fib(k + 1)
    ensures Fib(m) == Fib(k + 1)
  {
    if m <= k {
      FibMonotone(m, k);
    } else if m > k + 1 {
      FibMonotone(k + 2, m);
      FibMonotone(1, k);
    }
  }

  /** Sum of a list of integers, accumulated from the left. */
  function Sum(s: seq<int>): int
  {
    if s == [] then 0 else Sum(s[..|s| - 1]) + s[|s| - 1]
  }

  lemma {:induction false} SumAppend(s: seq<int>, t: seq<int>)
    ensures Sum(s + t) == Sum(s) + Sum(t)
    decreases |t|
  {
    if t != [] {
      assert (s + t)[..|s + t| - 1] == s + t[..|t| - 1];
      SumAppend(s, t[..|t| - 1]);
    } else {
      assert s + t == s;
    }
  }

  function Reverse<T>(s: seq<T>): (r: seq<T>)
    ensures |r| == |s|
    ensures forall k :: 0 <= k < |s| ==> r[k] == s[|s| - 1 - k]
  {
    if s == [] then [] else Reverse(s[1..]) + [s[0]]
  }

  // ---------------------------------------------------------------------
  // Greedy Zeckendorf decomposition over a table of Fibonacci numbers.
  // ---------------------------------------------------------------------

  /** t[k] == F(k + off): the table lists consecutive Fibonacci numbers. */
  ghost predicate FibTable(t: seq<int>, off: nat)
  {
    forall k :: 0 <= k < |t| ==> t[k] == Fib(k + off)
  }

  /**
   * The table indices that a largest-first scan over t[i-1], ..., t[0]
   * selects when it takes every entry not above what remains, listed in
   * ascending order.
   */
  function Greedy(t: seq<int>, i: nat, rem: int): (picked: seq<nat>)
    requires i <= |t|
    ensures forall a :: 0 <= a < |picked| ==> picked[a] < i
    decreases i
  {
    if i == 0 then []
    else if t[i - 1] <= rem then Greedy(t, i - 1, rem - t[i - 1]) + [i - 1]
    else Greedy(t, i - 1, rem)
  }

  /** The table entries at the given indices. */
  function ValuesAt(t: seq<int>, idx: seq<nat>): (v: seq<int>)
    requires forall a :: 0 <= a < |idx| ==> idx[a] < |t|
    ensures |v| == |idx|
    ensures forall a :: 0 <= a < |idx| ==> v[a] == t[idx[a]]
  {
    seq(|idx|, a requires 0 <= a < |idx| => t[idx[a]])
  }

  /** Indices ascend with gaps of at least two: no two neighbours are chosen. */
  ghost predicate NonConsecutive(idx: seq<nat>)
  {
    forall a :: 0 <= a < |idx| - 1 ==> idx[a] + 2 <= idx[a + 1]
  }

  /**
   * One step of the scan from t[i-1]: when it takes the entry, the entry
   * below is passed over, and in either case what remains is below the
   * Fibonacci number bounding the rest of the scan.
   */
  lemma GreedyStep(t: seq<int>, off: nat, i: nat, rem: int)
    requires off == 1 || off == 2
    requires FibTable(t, off) && 1 <= i <= |t|
    requires 0 <= rem < Fib(i + off)
    ensures var take := t[i - 1] <= rem;
            var j := if take && i >= 2 then i - 2 else i - 1;
            var r := if take then rem - t[i - 1] else rem;
            0 <= r < Fib(j + off) &&
            Greedy(t, i, rem) == if take then Greedy(t, j, r) + [i - 1] else Greedy(t, j, r)
  {
    assert t[i - 1] == Fib(i - 1 + off);
    if t[i - 1] <= rem && i >= 2 {
      assert t[i - 2] == Fib(i - 2 + off);
      assert Fib(i + off) == Fib(i - 1 + off) + Fib(i - 2 + off);
    } else if t[i - 1] <= rem {
      assert Fib(1 + off) <= 2 && Fib(off) == 1;
    }
  }

  lemma SumValuesSnoc(t: seq<int>, h: seq<nat>, k: nat)
    requires k < |t| && forall a :: 0 <= a < |h| ==> h[a] < |t|
    ensures Sum(ValuesAt(t, h + [k])) == Sum(ValuesAt(t, h)) + t[k]
  {
    assert ValuesAt(t, h + [k])[..|h|] == ValuesAt(t, h);
  }

  /**
   * Zeckendorf by the greedy scan: over a table of consecutive Fibonacci
   * numbers starting at F(1) or F(2), every 0 <= rem < F(i + off) is the sum
   * of the chosen entries.
   */
  lemma {:induction false} GreedySum(t: seq<int>, off: nat, i: nat, rem: int)
    requires off == 1 || off == 2
    requires FibTable(t, off) && i <= |t|
    requires 0 <= rem < Fib(i + off)
    ensures Sum(ValuesAt(t, Greedy(t, i, rem))) == rem
    decreases i
  {
    if i > 0 {
      GreedyStep(t, off, i, rem);
      var take := t[i - 1] <= rem;
      var j := if take && i >= 2 then i - 2 else i - 1;
      var r := if take then rem - t[i - 1] else rem;
      GreedySum(t, off, j, r);
      if take {
        SumValuesSnoc(t, Greedy(t, j, r), i - 1);
      }
    }
  }

  /** The chosen indices are never neighbours in the table. */
  lemma {:induction false} GreedyNonConsecutive(t: seq<int>, off: nat, i: nat, rem: int)
    requires off == 1 || off == 2
    requires FibTable(t, off) && i <= |t|
    requires 0 <= rem < Fib(i + off)
    ensures NonConsecutive(Greedy(t, i, rem))
    decreases i
  {
    if i > 0 {
      GreedyStep(t, off, i, rem);
      var take := t[i - 1] <= rem;
      var j := if take && i >= 2 then i - 2 else i - 1;
      var r := if take then rem - t[i - 1] else rem;
      GreedyNonConsecutive(t, off, j, r);
    }
  }

  /** On the table 1, 1, 2, ... (starting at F(1)) the first entry is never chosen. */
  lemma {:induction false} GreedySkipsFirst(t: seq<int>, i: nat, rem: int)
    requires FibTable(t, 1) && i <= |t|
    requires 0 <= rem < Fib(i + 1)
    ensures 0 !in Greedy(t, i, rem)
    decreases i
  {
    if i > 0 {
      GreedyStep(t, 1, i, rem);
      var take := t[i - 1] <= rem;
      var j := if take && i >= 2 then i - 2 else i - 1;
      var r := if take then rem - t[i - 1] else rem;
      GreedySkipsFirst(t, j, r);
    }
  }

  /** The scan over the table from the top: take each entry that fits, then reverse. */
  method GreedyScan(t: seq<int>, n: int) returns (result: seq<int>)
    ensures result == ValuesAt(t, Greedy(t, |t|, n))
  {
    var picked: seq<int> := [];
    var remaining := n;
    var i := |t| - 1;
    while i >= 0
      invariant -1 <= i < |t|
      invariant ValuesAt(t, Greedy(t, |t|, n)) == ValuesAt(t, Greedy(t, i + 1, remaining)) + Reverse(picked)
    {
      if t[i] <= remaining {
        ValuesAtSnoc(t, Greedy(t, i, remaining - t[i]), i);
        ReverseSnoc(picked, t[i]);
        picked := picked + [t[i]];
        remaining := remaining - t[i];
      }
      i := i - 1;
    }
    result := Reverse(picked);
    assert ValuesAt(t, Greedy(t, 0, remaining)) == [];
  }

  /** A prefix one longer is the prefix and the next element. */
  lemma PrefixSnoc<T>(s: seq<T>, i: nat)
    requires i < |s|
    ensures s[..i + 1] == s[..i] + [s[i]]
  {
  }

  /** Dropping k after dropping p is dropping p + k. */
  lemma DropDrop<T>(s: seq<T>, p: nat, k: nat)
    requires p + k <= |s|
    ensures s[p..][k..] == s[p + k..]
  {
  }

  lemma AppendDrop<T>(a: seq<T>, b: seq<T>)
    ensures (a + b)[|a|..] == b
  {
  }

  lemma HeadTail<T>(s: seq<T>)
    requires s != []
    ensures [s[0]] + s[1..] == s
  {
  }

  lemma ValuesAtSnoc(t: seq<int>, h: seq<nat>, k: nat)
    requires k < |t| && forall a :: 0 <= a < |h| ==> h[a] < |t|
    ensures ValuesAt(t, h + [k]) == ValuesAt(t, h) + [t[k]]
  {
  }

  lemma ReverseSnoc(s: seq<int>, x: int)
    ensures Reverse(s + [x]) == [x] + Reverse(s)
  {
  }

  /** Entries above what remains are passed over. */
  lemma {:induction false} GreedySkipAbove(t: seq<int>, i: nat, j: nat, rem: int)
    requires j <= i <= |t|
    requires forall k :: j <= k < i ==> t[k] > rem
    ensures Greedy(t, i, rem) == Greedy(t, j, rem)
    decreases i
  {
    if j < i {
      GreedySkipAbove(t, i - 1, j, rem);
    }
  }

  predicate StrictlyAscending(s: seq<nat>)
  {
    forall a, b :: 0 <= a < b < |s| ==> s[a] < s[b]
  }

  /** The scan takes each index at most once, so the chosen indices ascend strictly. */
  lemma {:induction false} GreedyAscending(t: seq<int>, i: nat, rem: int)
    requires i <= |t|
    ensures StrictlyAscending(Greedy(t, i, rem))
    decreases i
  {
    if i > 0 {
      var r := if t[i - 1] <= rem then rem - t[i - 1] else rem;
      var h := Greedy(t, i - 1, r);
      GreedyAscending(t, i - 1, r);
      if t[i - 1] <= rem {
        var g := h + [i - 1];
        assert Greedy(t, i, rem) == g;
        forall a, b | 0 <= a < b < |g|
          ensures g[a] < g[b]
        {
          assert g[a] == h[a] && h[a] < i - 1;
          if b < |h| {
            assert g[b] == h[b];
          }
        }
      }
    }
  }

  /** Gaps of at least two between neighbours make the indices strictly ascending. */
  lemma {:induction false} NonConsecutiveAscending(idx: seq<nat>, a: nat, b: nat)
    requires NonConsecutive(idx) && a < b < |idx|
    ensures idx[a] < idx[b]
    decreases b - a
  {
    if a + 1 < b {
      NonConsecutiveAscending(idx, a, b - 1);
    }
  }

  /**
   * Zeckendorf's theorem for the greedy scan, stated on the chosen values:
   * they are table entries, they sum to rem, they ascend strictly, and the
   * entry following a chosen one in the table is never chosen next.
   */
  lemma GreedyZeckendorf(t: seq<int>, off: nat, rem: int)
    requires off == 1 || off == 2
    requires FibTable(t, off) && 0 <= rem < Fib(|t| + off)
    ensures var r := ValuesAt(t, Greedy(t, |t|, rem));
            Sum(r) == rem &&
            (forall a :: 0 <= a < |r| ==> r[a] in t) &&
            (forall a, b :: 0 <= a < b < |r| ==> r[a] < r[b]) &&
            (forall a, k :: 0 <= a < |r| - 1 && 0 <= k < |t| - 1 && r[a] == t[k] ==> r[a + 1] != t[k + 1])
  {
    var idx := Greedy(t, |t|, rem);
    GreedySum(t, off, |t|, rem);
    GreedyNonConsecutive(t, off, |t|, rem);
    if off == 1 {
      GreedySkipsFirst(t, |t|, rem);
    }
    SpacedValues(t, off, idx);
  }

  /** Values at well-spaced indices whose Fibonacci indices are at least 2. */
  lemma SpacedValues(t: seq<int>, off: nat, idx: seq<nat>)
    requires off == 1 || off == 2
    requires FibTable(t, off) && NonConsecutive(idx)
    requires forall a :: 0 <= a < |idx| ==> idx[a] < |t|
    requires off == 1 ==> 0 !in idx
    ensures var r := ValuesAt(t, idx);
            (forall a :: 0 <= a < |r| ==> r[a] in t) &&
            (forall a, b :: 0 <= a < b < |r| ==> r[a] < r[b]) &&
            (forall a, k :: 0 <= a < |r| - 1 && 0 <= k < |t| - 1 && r[a] == t[k] ==> r[a + 1] != t[k + 1])
  {
    var r := ValuesAt(t, idx);
    forall a | 0 <= a < |r|
      ensures r[a] in t
    {
      assert r[a] == t[idx[a]];
    }
    SpacedAscending(t, off, idx);
    SpacedNotNeighbours(t, off, idx);
  }

  lemma SpacedAscending(t: seq<int>, off: nat, idx: seq<nat>)
    requires off == 1 || off == 2
    requires FibTable(t, off) && NonConsecutive(idx)
    requires forall a :: 0 <= a < |idx| ==> idx[a] < |t|
    requires off == 1 ==> 0 !in idx
    ensures forall a, b :: 0 <= a < b < |idx| ==> t[idx[a]] < t[idx[b]]
  {
    forall a, b | 0 <= a < b < |idx|
      ensures t[idx[a]] < t[idx[b]]
    {
      NonConsecutiveAscending(idx, a, b);
      assert idx[a] != 0 || off == 2;
      FibStrict(idx[a] + off, idx[b] + off);
    }
  }

  lemma SpacedNotNeighbours(t: seq<int>, off: nat, idx: seq<nat>)
    requires off == 1 || off == 2
    requires FibTable(t, off) && NonConsecutive(idx)
    requires forall a :: 0 <= a < |idx| ==> idx[a] < |t|
    requires off == 1 ==> 0 !in idx
    ensures forall a, k :: 0 <= a < |idx| - 1 && 0 <= k < |t| - 1 && t[idx[a]] == t[k] ==> t[idx[a + 1]] != t[k + 1]
  {
    forall a, k | 0 <= a < |idx| - 1 && 0 <= k < |t| - 1 && t[idx[a]] == t[k]
      ensures t[idx[a + 1]] != t[k + 1]
    {
      assert idx[a] != 0 || off == 2;
      if k > idx[a] {
        FibStrict(idx[a] + off, k + off);
      }
      FibStrict(k + 1 + off, idx[a + 1] + off);
    }
  }
}
