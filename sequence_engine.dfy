/**
 * The sequence generator and the closest-term search of src/utils/fibonacci.js.
 * JavaScript numbers hold the terms exactly up to 2^53 - 1; the generator then
 * switches to BigInt and converts the terms it already has, so each term is
 * modelled as its exact integer value tagged with its representation.
 */
module SequenceEngine {
  import opened FibMath

  /** A sequence element: a Number (Small) or a BigInt (Big), with its exact value. */
  datatype Num = Small(v: int) | Big(v: int)

  /** Past index 78 the terms no longer fit the safe-integer range. */
  lemma SafeThreshold(i: nat)
    ensures Fib(i) > MaxSafe <==> i >= 79
  {
    FibLargeValues();
    if i >= 79 {
      FibMonotone(79, i);
    } else {
      FibMonotone(i, 78);
    }
  }

  /** generateFibonacciSequence(n). */
  method GenerateSequence(n: int) returns (s: seq<Num>, usingBigInt: bool)
    ensures n <= 0 ==> s == []
    ensures n == 1 ==> s == [Small(0)]
    ensures n == 2 ==> s == [Small(0), Small(1)]
    ensures |s| == if n <= 0 then 0 else n
    ensures forall i :: 0 <= i < |s| ==> s[i].v == Fib(i)
    ensures forall i, j :: 0 <= i <= j < |s| ==> 0 <= s[i].v <= s[j].v
    ensures Homogeneous(s, usingBigInt)
    ensures usingBigInt <==> n >= 80
  {
    if n <= 0 {
      return [], false;
    }
    if n == 1 {
      return [Small(0)], false;
    }
    if n == 2 {
      return [Small(0), Small(1)], false;
    }
    s, usingBigInt := [Small(0), Small(1)], false;
    var i := 2;
    while i < n
      invariant 2 <= i <= n
      invariant |s| == i
      invariant FibTerms(s)
      invariant Homogeneous(s, usingBigInt)
      invariant usingBigInt <==> i >= 80
    {
      s, usingBigInt := NextTerm(s, usingBigInt);
      i := i + 1;
    }
    TermsOrdered(s);
  }

  /** s[k] holds F(k) for every k. */
  predicate FibTerms(s: seq<Num>)
  {
    forall k :: 0 <= k < |s| ==> s[k].v == Fib(k)
  }

  /**
   * One round of the loop: add the sum of the last two terms, switching the
   * whole sequence to BigInt at the first sum past the safe-integer range.
   */
  method NextTerm(s0: seq<Num>, big0: bool) returns (s: seq<Num>, usingBigInt: bool)
    requires |s0| >= 2 && FibTerms(s0) && Homogeneous(s0, big0) && (big0 <==> |s0| >= 80)
    ensures |s| == |s0| + 1 && FibTerms(s) && Homogeneous(s, usingBigInt)
    ensures usingBigInt <==> |s| >= 80
  {
    var i := |s0|;
    var prev, prev2 := s0[i - 1], s0[i - 2];
    NextValue(s0);
    usingBigInt := big0;
    if !usingBigInt {
      var next := prev.v + prev2.v;
      SafeThreshold(i);
      if next > MaxSafe {
        usingBigInt := true;
        var big := ConvertToBigInt(s0);
        ConvertKeepsTerms(s0, big);
        s := big + [Big(big[i - 1].v + big[i - 2].v)];
        AppendTerm(big, Big(big[i - 1].v + big[i - 2].v), true);
      } else {
        s := s0 + [Small(next)];
        AppendTerm(s0, Small(next), false);
      }
    } else {
      s := s0 + [Big(s0[i - 1].v + s0[i - 2].v)];
      AppendTerm(s0, Big(s0[i - 1].v + s0[i - 2].v), true);
    }
  }

  /** The next term is the sum of the last two. */
  lemma NextValue(s: seq<Num>)
    requires |s| >= 2 && FibTerms(s)
    ensures s[|s| - 1].v + s[|s| - 2].v == Fib(|s|)
  {
  }

  /** Appending F(|s|) of the same kind keeps both invariants. */
  lemma AppendTerm(s: seq<Num>, x: Num, big: bool)
    requires FibTerms(s) && Homogeneous(s, big) && x.v == Fib(|s|) && (x.Big? <==> big)
    ensures FibTerms(s + [x]) && Homogeneous(s + [x], big)
  {
  }

  /** The conversion keeps every value. */
  lemma ConvertKeepsTerms(s0: seq<Num>, s: seq<Num>)
    requires FibTerms(s0) && |s| == |s0| && forall k :: 0 <= k < |s| ==> s[k] == Big(s0[k].v)
    ensures FibTerms(s)
  {
  }

  /** Every element is a BigInt when big holds and a Number otherwise. */
  predicate Homogeneous(s: seq<Num>, big: bool)
  {
    forall k :: 0 <= k < |s| ==> (s[k].Big? <==> big)
  }

  /** Terms are non-negative and non-decreasing. */
  lemma TermsOrdered(s: seq<Num>)
    requires forall i :: 0 <= i < |s| ==> s[i].v == Fib(i)
    ensures forall i, j :: 0 <= i <= j < |s| ==> 0 <= s[i].v <= s[j].v
  {
    forall i, j | 0 <= i <= j < |s|
      ensures 0 <= s[i].v <= s[j].v
    {
      FibMonotone(i, j);
    }
  }

  /** The in-place conversion loop: every term becomes a BigInt of the same value. */
  method ConvertToBigInt(s0: seq<Num>) returns (s: seq<Num>)
    ensures |s| == |s0| && Homogeneous(s, true)
    ensures forall k :: 0 <= k < |s| ==> s[k] == Big(s0[k].v)
  {
    s := s0;
    var j := 0;
    while j < |s|
      invariant 0 <= j <= |s| == |s0|
      invariant forall k :: 0 <= k < j ==> s[k] == Big(s0[k].v)
      invariant forall k :: j <= k < |s| ==> s[k] == s0[k]
    {
      s := s[j := Big(s[j].v)];
      j := j + 1;
    }
  }

  /** The first ten terms the sequence test expects. */
  method FirstTenTerms() returns (values: seq<int>)
    ensures values == [0, 1, 1, 2, 3, 5, 8, 13, 21, 34]
  {
    var s, _ := GenerateSequence(10);
    values := seq(|s|, k requires 0 <= k < |s| => s[k].v);
    FibValues();
  }

  function Abs(x: int): nat
  {
    if x < 0 then -x else x
  }

  /** closestFibonacci(n) for an integer n. */
  method ClosestFibonacci(n: int) returns (r: int)
    ensures n <= 0 ==> r == 0
    ensures n == 1 ==> r == 1
    ensures IsFib(r)
    ensures n >= 2 ==> exists k: nat :: k >= 1 && Fib(k) < n <= Fib(k + 1) &&
                                        r == (if n - Fib(k) <= Fib(k + 1) - n then Fib(k) else Fib(k + 1))
    ensures forall m: nat :: Abs(n - r) <= Abs(n - Fib(m))
    ensures IsFib(n) ==> r == n
  {
    if n <= 0 {
      assert Fib(0) == 0;
      return 0;
    }
    if n <= 1 {
      assert Fib(1) == 1;
      return 1;
    }
    var b, c, k := Bracket(n);
    r := if Abs(n - b) <= Abs(n - c) then b else c;
    NearestOfBracket(n, k, r);
    assert Fib(k) < n <= Fib(k + 1);
  }

  /** The walk of closestFibonacci: the consecutive terms F(k) < n <= F(k + 1). */
  method Bracket(n: int) returns (b: int, c: int, ghost k: nat)
    requires n >= 2
    ensures k >= 1 && b == Fib(k) && c == Fib(k + 1) && b < n <= c
  {
    var a := 0;
    b, c, k := 1, 1, 1;
    while c < n
      invariant k >= 1 && a == Fib(k - 1) && b == Fib(k) && c == Fib(k + 1)
      invariant b < n
      decreases n - c
    {
      FibMonotone(1, k);
      a, b := b, c;
      c := a + b;
      k := k + 1;
    }
  }

  /** The nearer of F(k) and F(k + 1) is as near n as any Fibonacci number. */
  lemma NearestOfBracket(n: int, k: nat, r: int)
    requires k >= 1 && Fib(k) < n <= Fib(k + 1)
    requires r == if Abs(n - Fib(k)) <= Abs(n - Fib(k + 1)) then Fib(k) else Fib(k + 1)
    ensures forall m: nat :: Abs(n - r) <= Abs(n - Fib(m))
  {
    forall m: nat
      ensures Abs(n - r) <= Abs(n - Fib(m))
    {
      if m <= k {
        FibMonotone(m, k);
      } else {
        FibMonotone(k + 1, m);
      }
    }
  }
}
