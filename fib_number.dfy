/**
 * The integer helper fibonacciNumber of src/utils/fibonacciAlgorithms.js,
 * which fibonacciSearch, the interval search of that file, calls: a pair of
 * running terms seeded 1, 1 and advanced n - 1 times.
 */
module FibNumber {
  import opened FibMath

  /** What fibonacciNumber(n) returns: 1 for every n up to 1, negatives included, and F(n + 1) above. */
  function FibonacciNumberOf(n: int): nat
  {
    if n <= 1 then 1 else Fib(n + 1)
  }

  /** fibonacciNumber(n): [a, b] = [b, a + b] for i = 2 .. n, then b. */
  method FibonacciNumber(n: int) returns (r: int)
    ensures r == FibonacciNumberOf(n)
  {
    if n <= 1 {
      return 1;
    }
    var a, b := 1, 1;
    var i := 2;
    while i <= n
      invariant 2 <= i <= n + 1
      invariant a == Fib(i - 1) && b == Fib(i)
    {
      a, b := b, a + b;
      i := i + 1;
    }
    return b;
  }

  /** Above 1 every value is the sum of the two before it: 1, 1, 2, 3, 5, ... */
  lemma FibonacciNumberRecurrence(n: int)
    requires n >= 2
    ensures FibonacciNumberOf(n) == FibonacciNumberOf(n - 1) + FibonacciNumberOf(n - 2)
  {
  }

  /** Every value is at least 1, and the values never decrease. */
  lemma FibonacciNumberMonotone(m: int, n: int)
    requires m <= n
    ensures 1 <= FibonacciNumberOf(m) <= FibonacciNumberOf(n)
  {
    if n >= 2 {
      assert Fib(2) == 1;
      FibMonotone(2, n + 1);
      if m >= 2 {
        FibMonotone(2, m + 1);
        FibMonotone(m + 1, n + 1);
      }
    }
  }

  /**
   * The values are exact integers.  The source adds JavaScript Numbers, whose
   * integers are exact only up to 2^53: every value up to n = 77 lies below
   * it, and the value for n = 78, F(79), is the first one above it.
   */
  lemma FibonacciNumberSafeRange()
    ensures FibonacciNumberOf(77) < 0x20_0000_0000_0000 < FibonacciNumberOf(78)
    ensures forall n :: n <= 77 ==> FibonacciNumberOf(n) < 0x20_0000_0000_0000
  {
    FibLargeValues();
    forall n | n <= 77
      ensures FibonacciNumberOf(n) < 0x20_0000_0000_0000
    {
      FibonacciNumberMonotone(n, 77);
    }
  }
}
