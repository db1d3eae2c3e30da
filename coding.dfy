/**
 * The Fibonacci coding explorer of src/components/FibonacciCodingExplorer.jsx:
 * each character code is split into Fibonacci numbers by the greedy scan
 * over the table 1, 1, 2, 3, ..., 6765, written as a bit string with a '1'
 * at the table index of each term, and terminated; the decoder reads up to
 * the first "11".  Characters are their UTF-16 code units, as charCodeAt and
 * String.fromCharCode see them.
 *
 * The coder takes a flag `fixed`: false is the program as written (the
 * terminator "11", the decoder summing the bits before the first "11"),
 * true is the standard Fibonacci code (a single '1' terminator, the decoder
 * including the first '1' of the pair).  The specification functions take
 * the table as a parameter t; the methods regenerate it, as the program does.
 */
module Coding {
  import opened FibMath

  datatype Option<T> = None | Some(value: T)

  /** A UTF-16 code unit. */
  type CodeUnit = x: int | 0 <= x < 65536

  /** A JavaScript number the decoder accumulates: adding an undefined table entry gives NaN. */
  datatype Value = Num(n: int) | NaN

  /** F(lo), ..., F(hi - 1). */
  function FibRange(lo: nat, hi: nat): (r: seq<int>)
    requires lo <= hi
    ensures |r| == hi - lo && FibTable(r, lo)
    decreases hi - lo
  {
    if lo == hi then [] else [Fib(lo)] + FibRange(lo + 1, hi)
  }

  /** generateFibonacci(20): 1, 1, 2, 3, 5, ..., 6765. */
  function CodingTable(): (t: seq<int>)
    ensures IsCodingTable(t)
  {
    var r := FibRange(1, 21);
    FibTableIsCoding(r);
    r
  }

  /** The entry at index k of the coding table: F(k + 1). */
  function Entry(k: nat): nat
  {
    Fib(k + 1)
  }

  /**
   * The 20 entries F(1), ..., F(20).  The entries are tied to Entry so that
   * a proof sees them only where it asks for them.
   */
  ghost predicate IsCodingTable(t: seq<int>)
  {
    |t| == 20 && forall k {:trigger Entry(k)} :: 0 <= k < 20 ==> t[k] == Entry(k)
  }

  lemma FibTableIsCoding(t: seq<int>)
    requires |t| == 20 && FibTable(t, 1)
    ensures IsCodingTable(t)
  {
    forall k | 0 <= k < 20
      ensures t[k] == Entry(k)
    {
    }
  }

  lemma CodingIsFibTable(t: seq<int>)
    requires IsCodingTable(t)
    ensures FibTable(t, 1)
  {
    forall k | 0 <= k < |t|
      ensures t[k] == Fib(k + 1)
    {
      assert t[k] == Entry(k);
    }
  }

  /** The entries are positive, 1 twice, then strictly increasing. */
  lemma TableFacts(t: seq<int>)
    requires IsCodingTable(t)
    ensures t[0] == 1 && t[1] == 1
    ensures forall k :: 0 <= k < |t| ==> t[k] >= 1
    ensures forall j, k :: 1 <= j < k < |t| ==> t[j] < t[k]
  {
    CodingIsFibTable(t);
    assert Fib(1) == 1 && Fib(2) == 1;
    forall k | 0 <= k < |t|
      ensures t[k] >= 1
    {
      FibMonotone(1, k + 1);
    }
    forall j, k | 1 <= j < k < |t|
      ensures t[j] < t[k]
    {
      FibStrict(j + 1, k + 1);
    }
  }

  /** generateFibonacci(n): the seeds 1, 1, then each entry the sum of the two before. */
  method GenerateFibonacci(n: int) returns (fib: seq<int>)
    ensures |fib| == if n < 2 then 2 else n
    ensures FibTable(fib, 1)
  {
    fib := [1, 1];
    var i := 2;
    while i < n
      invariant 2 <= i && |fib| == i
      invariant i <= if n < 2 then 2 else n
      invariant FibTable(fib, 1)
    {
      fib := fib + [fib[i - 1] + fib[i - 2]];
      i := i + 1;
    }
  }

  /** The table each helper of the explorer regenerates. */
  method Table20() returns (t: seq<int>)
    ensures t == CodingTable()
  {
    t := GenerateFibonacci(20);
    var c := CodingTable();
    CodingIsFibTable(c);
    assert forall k :: 0 <= k < 20 ==> t[k] == c[k];
  }

  // ---------------------------------------------------------------------
  // findZeckendorfRepresentation
  // ---------------------------------------------------------------------

  /** The terms the greedy scan picks for n, in ascending order. */
  function Zeck(t: seq<int>, n: int): seq<int>
  {
    ValuesAt(t, Greedy(t, |t|, n))
  }

  method FindZeckendorfRepresentation(n: int) returns (r: seq<int>)
    ensures r == Zeck(CodingTable(), n)
  {
    var fib := Table20();
    r := GreedyScan(fib, n);
  }

  /**
   * Below 10946 the representation is the Zeckendorf one: table terms that
   * sum to n, ascending strictly, never two neighbouring table entries.
   */
  lemma ZeckendorfRepresentation(t: seq<int>, n: int)
    requires IsCodingTable(t) && 0 <= n < 10946
    ensures var r := Zeck(t, n);
            Sum(r) == n &&
            (forall a :: 0 <= a < |r| ==> r[a] in t) &&
            (forall a, b :: 0 <= a < b < |r| ==> r[a] < r[b]) &&
            (forall a, k :: 0 <= a < |r| - 1 && 0 <= k < |t| - 1 && r[a] == t[k] ==> r[a + 1] != t[k + 1])
  {
    CodingIsFibTable(t);
    FibValues();
    GreedyZeckendorf(t, 1, n);
  }

  // ---------------------------------------------------------------------
  // encodeCharacter
  // ---------------------------------------------------------------------

  /**
   * The bits the encoder's loops emit from term i and table index f on: a
   * '0' for each table entry that differs from the term, then a '1'.
   */
  function Body(t: seq<int>, z: seq<int>, i: nat, f: nat): string
    requires i <= |z|
    decreases |z| - i, |t| - f
  {
    if i == |z| then ""
    else if f < |t| && t[f] != z[i] then "0" + Body(t, z, i, f + 1)
    else "1" + Body(t, z, i + 1, f + 1)
  }

  function Terminator(fixed: bool): string
  {
    if fixed then "1" else "11"
  }

  /** The binary field of encodeCharacter for code c. */
  function EncodeBits(t: seq<int>, c: int, fixed: bool): string
  {
    Body(t, Zeck(t, c), 0, 0) + Terminator(fixed)
  }

  datatype Encoded = Encoded(charCode: int, zeckendorf: seq<int>, binary: string, length: nat)

  method EncodeCharacter(c: CodeUnit, fixed: bool) returns (e: Encoded)
    ensures e == Encoded(c, Zeck(CodingTable(), c), EncodeBits(CodingTable(), c, fixed),
                         |EncodeBits(CodingTable(), c, fixed)|)
  {
    var z := FindZeckendorfRepresentation(c);
    var fib := Table20();
    GreedyAscending(fib, 20, c);
    var binary := EmitBody(fib, z, Greedy(fib, 20, c));
    binary := binary + Terminator(fixed);
    e := Encoded(c, z, binary, |binary|);
  }

  /** The two loops of encodeCharacter: for each term, skip to its table index, write '1'. */
  method EmitBody(fib: seq<int>, z: seq<int>, ghost idx: seq<nat>) returns (binary: string)
    requires forall a :: 0 <= a < |idx| ==> idx[a] < |fib|
    requires z == ValuesAt(fib, idx) && StrictlyAscending(idx)
    ensures binary == Body(fib, z, 0, 0)
  {
    binary := "";
    var fibIndex := 0;
    var i := 0;
    while i < |z|
      invariant 0 <= i <= |z| == |idx|
      invariant i < |z| ==> fibIndex <= idx[i]
      invariant Body(fib, z, 0, 0) == binary + Body(fib, z, i, fibIndex)
    {
      while fib[fibIndex] != z[i]
        invariant fibIndex <= idx[i]
        invariant Body(fib, z, 0, 0) == binary + Body(fib, z, i, fibIndex)
        decreases idx[i] - fibIndex
      {
        assert Body(fib, z, i, fibIndex) == "0" + Body(fib, z, i, fibIndex + 1);
        binary := binary + "0";
        fibIndex := fibIndex + 1;
      }
      assert Body(fib, z, i, fibIndex) == "1" + Body(fib, z, i + 1, fibIndex + 1);
      binary := binary + "1";
      fibIndex := fibIndex + 1;
      i := i + 1;
    }
  }

  /**
   * Where the encoder puts its '1's: at the table index of each term, except
   * that the term 1, which the scan takes at index 1, is found at index 0.
   */
  function EncoderPositions(idx: seq<nat>): seq<nat>
  {
    if |idx| > 0 && idx[0] == 1 then [0] + idx[1..] else idx
  }

  /** No earlier table entry equals the entry at any of the positions. */
  ghost predicate FirstOccurrences(t: seq<int>, ps: seq<nat>)
    requires forall a :: 0 <= a < |ps| ==> ps[a] < |t|
  {
    forall a, j :: 0 <= a < |ps| && 0 <= j < ps[a] ==> t[j] != t[ps[a]]
  }

  /** s has a '1' exactly at the positions ps, all inside s. */
  ghost predicate OnesAt(s: string, ps: seq<nat>)
  {
    (forall a :: 0 <= a < |ps| ==> ps[a] < |s|) &&
    (forall j :: 0 <= j < |s| ==> (s[j] == '1' <==> j in ps))
  }

  /** b, written from table index f on, has a '1' exactly at the positions ps. */
  ghost predicate OnesFrom(b: string, f: nat, ps: seq<nat>)
  {
    forall j :: 0 <= j < |b| ==> (b[j] == '1' <==> f + j in ps)
  }

  /** The emitted bits from term i on are '1' exactly at the remaining positions. */
  lemma {:induction false} BodyBits(t: seq<int>, z: seq<int>, ps: seq<nat>, i: nat, f: nat)
    requires |z| == |ps| && forall a :: 0 <= a < |ps| ==> ps[a] < |t| && z[a] == t[ps[a]]
    requires StrictlyAscending(ps) && FirstOccurrences(t, ps)
    requires i <= |ps| && (i < |ps| ==> f <= ps[i])
    ensures |Body(t, z, i, f)| == (if i == |ps| then 0 else ps[|ps| - 1] + 1 - f)
    ensures OnesFrom(Body(t, z, i, f), f, ps[i..])
    decreases |ps| - i, |t| - f
  {
    if i < |ps| {
      if f < |t| && t[f] != z[i] {
        BodyBits(t, z, ps, i, f + 1);
        BodyZeroStep(t, z, ps, i, f);
      } else {
        BodyBits(t, z, ps, i + 1, f + 1);
        BodyOneStep(t, z, ps, i, f);
      }
    }
  }

  lemma BodyZeroStep(t: seq<int>, z: seq<int>, ps: seq<nat>, i: nat, f: nat)
    requires |z| == |ps| && i < |ps| && f < |t| && t[f] != z[i]
    requires forall a :: i <= a < |ps| ==> f < ps[a]
    requires OnesFrom(Body(t, z, i, f + 1), f + 1, ps[i..])
    ensures OnesFrom(Body(t, z, i, f), f, ps[i..])
  {
    var b, b' := Body(t, z, i, f), Body(t, z, i, f + 1);
    assert b == "0" + b';
    forall j | 0 <= j < |b|
      ensures b[j] == '1' <==> f + j in ps[i..]
    {
      if j == 0 {
        assert f !in ps[i..];
      } else {
        assert b[j] == b'[j - 1];
        assert f + 1 + (j - 1) == f + j;
      }
    }
  }

  lemma BodyOneStep(t: seq<int>, z: seq<int>, ps: seq<nat>, i: nat, f: nat)
    requires |z| == |ps| && i < |ps| && ps[i] == f && !(f < |t| && t[f] != z[i])
    requires OnesFrom(Body(t, z, i + 1, f + 1), f + 1, ps[i + 1..])
    ensures OnesFrom(Body(t, z, i, f), f, ps[i..])
  {
    var b, b' := Body(t, z, i, f), Body(t, z, i + 1, f + 1);
    assert b == "1" + b';
    assert ps[i..] == [ps[i]] + ps[i + 1..];
    forall j | 0 <= j < |b|
      ensures b[j] == '1' <==> f + j in ps[i..]
    {
      if j > 0 {
        assert b[j] == b'[j - 1];
        assert f + 1 + (j - 1) == f + j;
      }
    }
  }

  /** What the scan picks below 10946: well-spaced indices, never index 0, the ones after the first at least 3. */
  lemma GreedyIndices(t: seq<int>, c: int)
    requires IsCodingTable(t) && 0 <= c < 10946
    ensures var idx := Greedy(t, 20, c);
            NonConsecutive(idx) && StrictlyAscending(idx) && 0 !in idx &&
            (forall a :: 1 <= a < |idx| ==> idx[a] >= 3) &&
            Sum(ValuesAt(t, idx)) == c && (c == 0 <==> idx == [])
  {
    var idx := Greedy(t, 20, c);
    GreedyOnTable(t, c);
    GreedyAscending(t, 20, c);
    if c == 0 {
      TableFacts(t);
      GreedySkipAbove(t, 20, 0, 0);
    }
    LaterIndices(idx);
  }

  /** The Zeckendorf facts of the scan over the coding table, for codes below F(21). */
  lemma GreedyOnTable(t: seq<int>, c: int)
    requires IsCodingTable(t) && 0 <= c < 10946
    ensures var idx := Greedy(t, 20, c);
            NonConsecutive(idx) && 0 !in idx && Sum(ValuesAt(t, idx)) == c
  {
    CodingIsFibTable(t);
    FibValues();
    GreedySum(t, 1, 20, c);
    GreedyNonConsecutive(t, 1, 20, c);
    GreedySkipsFirst(t, 20, c);
  }

  /** Spaced indices that avoid 0: every one after the first is at least 3. */
  lemma LaterIndices(idx: seq<nat>)
    requires NonConsecutive(idx) && StrictlyAscending(idx) && 0 !in idx
    ensures forall a :: 1 <= a < |idx| ==> idx[a] >= 3
  {
    forall a | 1 <= a < |idx|
      ensures idx[a] >= 3
    {
      assert idx[0] != 0;
      if a > 1 {
        NonConsecutiveAscending(idx, 1, a);
      }
    }
  }

  /** Moving the term 1 from index 1 to index 0 keeps the gaps and leaves index 1 unused. */
  lemma PositionsFacts(idx: seq<nat>)
    requires NonConsecutive(idx) && StrictlyAscending(idx) && 0 !in idx
    requires forall a :: 1 <= a < |idx| ==> idx[a] >= 3
    ensures var ps := EncoderPositions(idx);
            |ps| == |idx| && NonConsecutive(ps) && StrictlyAscending(ps) && 1 !in ps &&
            (forall a :: 0 <= a < |ps| ==> ps[a] == idx[a] || (a == 0 && ps[a] == 0 && idx[a] == 1)) &&
            (forall a :: 0 <= a < |ps| ==> ps[a] == 0 || ps[a] >= 2)
  {
    var ps := EncoderPositions(idx);
    if |idx| > 0 && idx[0] == 1 {
      assert ps[0] == 0;
      assert forall a :: 1 <= a < |ps| ==> ps[a] == idx[a] >= 3;
    } else {
      assert ps == idx;
      forall a | 0 <= a < |ps|
        ensures ps[a] >= 2
      {
        assert a == 0 || idx[a] >= 3;
      }
    }
  }

  lemma TablePositions(t: seq<int>, idx: seq<nat>, ps: seq<nat>)
    requires IsCodingTable(t) && |ps| == |idx|
    requires forall a :: 0 <= a < |idx| ==> idx[a] < 20
    requires forall a :: 0 <= a < |ps| ==> ps[a] == idx[a] || (a == 0 && ps[a] == 0 && idx[a] == 1)
    requires forall a :: 0 <= a < |ps| ==> ps[a] == 0 || ps[a] >= 2
    ensures forall a :: 0 <= a < |ps| ==> ps[a] < |t|
    ensures ValuesAt(t, ps) == ValuesAt(t, idx) && FirstOccurrences(t, ps)
  {
    TableFacts(t);
    forall a, j | 0 <= a < |ps| && 0 <= j < ps[a]
      ensures t[j] != t[ps[a]]
    {
      if j == 0 {
        assert t[1] < t[ps[a]];
      }
    }
  }

  /** The positions of the '1's for a code below 10946, and what they hold. */
  lemma EncoderPositionsFacts(t: seq<int>, c: int)
    requires IsCodingTable(t) && 0 <= c < 10946
    ensures var idx := Greedy(t, 20, c);
            var ps := EncoderPositions(idx);
            |ps| == |idx| && (c == 0 <==> ps == []) &&
            (forall a :: 0 <= a < |ps| ==> ps[a] < |t|) &&
            NonConsecutive(ps) && StrictlyAscending(ps) && 1 !in ps &&
            ValuesAt(t, ps) == Zeck(t, c) && Sum(Zeck(t, c)) == c &&
            FirstOccurrences(t, ps)
  {
    var idx := Greedy(t, 20, c);
    GreedyIndices(t, c);
    PositionsFacts(idx);
    TablePositions(t, idx, EncoderPositions(idx));
  }

  /** Every position is below n. */
  predicate Below(ps: seq<nat>, n: int)
  {
    forall a :: 0 <= a < |ps| ==> ps[a] < n
  }

  /** The '1' bits of the coded string read back as the sum of their table entries. */
  lemma {:induction false} ValueOfOnes(t: seq<int>, s: string, ps: seq<nat>)
    requires OnesAt(s, ps) && StrictlyAscending(ps) && Below(ps, |t|)
    ensures ValueOf(t, s) == Num(Sum(ValuesAt(t, ps)))
    decreases |s|
  {
    if s == [] {
      assert ps == [];
    } else if s[|s| - 1] == '1' {
      var ps' := ps[..|ps| - 1];
      OnesAtDropOne(s, ps);
      ValueOfOnes(t, s[..|s| - 1], ps');
      SumValuesSnoc(t, ps', |s| - 1);
    } else {
      OnesAtDropZero(s, ps);
      ValueOfOnes(t, s[..|s| - 1], ps);
    }
  }

  /** A last '1' is the last position; the rest of the string has the other positions. */
  lemma OnesAtDropOne(s: string, ps: seq<nat>)
    requires OnesAt(s, ps) && StrictlyAscending(ps) && s != [] && s[|s| - 1] == '1'
    ensures |ps| > 0 && ps == ps[..|ps| - 1] + [|s| - 1]
    ensures OnesAt(s[..|s| - 1], ps[..|ps| - 1]) && StrictlyAscending(ps[..|ps| - 1])
  {
    var j := |s| - 1;
    var ps' := ps[..|ps| - 1];
    assert j in ps;
    assert ps[|ps| - 1] == j;
    PrefixSnoc(ps, |ps| - 1);
  }

  /** A last '0' is no position: the rest of the string has them all. */
  lemma OnesAtDropZero(s: string, ps: seq<nat>)
    requires OnesAt(s, ps) && s != [] && s[|s| - 1] != '1'
    ensures OnesAt(s[..|s| - 1], ps)
  {
    assert |s| - 1 !in ps;
  }

  /** No two neighbouring positions: no "11" in a string with '1's exactly there. */
  lemma NoPairInBody(s: string, ps: seq<nat>)
    requires OnesAt(s, ps) && NonConsecutive(ps) && StrictlyAscending(ps)
    ensures forall j :: 0 <= j < |s| - 1 ==> !(s[j] == '1' && s[j + 1] == '1')
  {
    forall j | 0 <= j < |s| - 1 && s[j] == '1'
      ensures s[j + 1] != '1'
    {
      forall a, b | 0 <= a < |ps| && 0 <= b < |ps| && ps[a] == j
        ensures ps[b] != j + 1
      {
        if b > a + 1 {
          assert ps[a + 1] < ps[b];
        }
      }
    }
  }

  /**
   * The encoder's output for a code below 10946: the body has a '1' exactly
   * at the positions of the terms, never at index 1, never two '1's in a
   * row; the whole string is the body and the terminator, its length the
   * last position plus one plus the terminator, and code 0 is the terminator alone.
   */
  lemma EncodeShape(t: seq<int>, c: int, fixed: bool)
    requires IsCodingTable(t) && 0 <= c < 10946
    ensures var ps := EncoderPositions(Greedy(t, 20, c));
            var body := Body(t, Zeck(t, c), 0, 0);
            EncodeBits(t, c, fixed) == body + Terminator(fixed) &&
            |ps| == |Zeck(t, c)| &&
            (forall a :: 0 <= a < |ps| ==> ps[a] < |t| && t[ps[a]] == Zeck(t, c)[a]) &&
            OnesAt(body, ps) &&
            (|body| > 1 ==> body[1] == '0') &&
            (forall j :: 0 <= j < |body| - 1 ==> !(body[j] == '1' && body[j + 1] == '1')) &&
            (c == 0 <==> body == []) &&
            (c != 0 ==> |body| == ps[|ps| - 1] + 1)
  {
    var ps := EncoderPositions(Greedy(t, 20, c));
    var z := Zeck(t, c);
    var body := Body(t, z, 0, 0);
    EncoderPositionsFacts(t, c);
    BodyBits(t, z, ps, 0, 0);
    assert ps[0..] == ps;
    NoPairInBody(body, ps);
    if |body| > 1 {
      assert body[1] != '1';
      Binary(t, z, 0, 0, 1);
    }
  }

  /** The encoder writes only '0' and '1'. */
  lemma {:induction false} Binary(t: seq<int>, z: seq<int>, i: nat, f: nat, j: nat)
    requires i <= |z| && j < |Body(t, z, i, f)|
    ensures Body(t, z, i, f)[j] == '0' || Body(t, z, i, f)[j] == '1'
    decreases |z| - i, |t| - f
  {
    if j > 0 {
      if f < |t| && t[f] != z[i] {
        Binary(t, z, i, f + 1, j - 1);
      } else {
        Binary(t, z, i + 1, f + 1, j - 1);
      }
    }
  }

  // ---------------------------------------------------------------------
  // decodeCharacter
  // ---------------------------------------------------------------------

  /** A "11" starts at k. */
  predicate PairAt(s: string, k: int)
  {
    0 <= k < |s| - 1 && s[k] == '1' && s[k + 1] == '1'
  }

  function FindPairFrom(s: string, p: nat): (k: int)
    ensures k == -1 || (p <= k && PairAt(s, k))
    ensures forall j :: p <= j < (if k == -1 then |s| else k) ==> !PairAt(s, j)
    decreases |s| - p
  {
    if p + 1 >= |s| then -1
    else if s[p] == '1' && s[p + 1] == '1' then p
    else FindPairFrom(s, p + 1)
  }

  /** String.prototype.indexOf('11'): the first "11", or -1 when there is none. */
  function IndexOf11(s: string): (k: int)
    ensures k == -1 <==> forall j :: 0 <= j < |s| ==> !PairAt(s, j)
    ensures k >= 0 ==> PairAt(s, k) && forall j :: 0 <= j < k ==> !PairAt(s, j)
  {
    FindPairFrom(s, 0)
  }

  /** The first "11" is at k when there is one at k and none before. */
  lemma FirstPair(s: string, k: nat)
    requires PairAt(s, k) && forall j :: 0 <= j < k ==> !PairAt(s, j)
    ensures IndexOf11(s) == k
  {
  }

  /** The sum of table entries at the '1' positions of s, accumulated left to right. */
  function ValueOf(t: seq<int>, s: string): Value
    decreases |s|
  {
    if s == [] then Num(0)
    else
      var v := ValueOf(t, s[..|s| - 1]);
      var j := |s| - 1;
      if s[j] != '1' then v
      else if v.NaN? || j >= |t| then NaN
      else Num(v.n + t[j])
  }

  /** One more bit read: the accumulated value changes only on a '1'. */
  lemma ValueOfStep(t: seq<int>, s: string, j: nat)
    requires j < |s|
    ensures var v := ValueOf(t, s[..j]);
            ValueOf(t, s[..j + 1]) ==
              if s[j] != '1' then v else if v.NaN? || j >= |t| then NaN else Num(v.n + t[j])
  {
    assert s[..j + 1][..j] == s[..j];
  }

  datatype Decoded = Decoded(charCode: Value, binary: string, length: nat)

  /** What decodeCharacter returns for the bit string s. */
  function DecodeBits(t: seq<int>, s: string, fixed: bool): (r: Option<Decoded>)
    ensures r.Some? ==> 2 <= r.value.length <= |s|
  {
    var e := IndexOf11(s);
    if e == -1 then None
    else Some(Decoded(ValueOf(t, s[..if fixed then e + 1 else e]), s[..e + 2], e + 2))
  }

  /**
   * The decoder fails exactly when there is no "11"; otherwise it consumes
   * up to and including the first "11", and reports those bits.
   */
  lemma DecodeBitsStops(t: seq<int>, s: string, fixed: bool)
    ensures var r := DecodeBits(t, s, fixed);
            (r.None? <==> forall j :: 0 <= j < |s| ==> !PairAt(s, j)) &&
            (r.Some? ==> PairAt(s, r.value.length - 2) &&
                         (forall j :: 0 <= j < r.value.length - 2 ==> !PairAt(s, j)) &&
                         r.value.binary == s[..r.value.length])
  {
  }

  method DecodeCharacter(s: string, fixed: bool) returns (r: Option<Decoded>)
    ensures r == DecodeBits(CodingTable(), s, fixed)
  {
    var fib := Table20();
    var endIndex := IndexOf11(s);
    if endIndex == -1 {
      return None;
    }
    var charBinary := s[..if fixed then endIndex + 1 else endIndex];
    var value := SumBits(fib, charBinary);
    r := Some(Decoded(value, s[..endIndex + 2], endIndex + 2));
  }

  /** The loop of decodeCharacter: add fib[j] for every '1' at index j. */
  method SumBits(fib: seq<int>, charBinary: string) returns (value: Value)
    ensures value == ValueOf(fib, charBinary)
  {
    value := Num(0);
    var j := 0;
    while j < |charBinary|
      invariant 0 <= j <= |charBinary|
      invariant value == ValueOf(fib, charBinary[..j])
    {
      ValueOfStep(fib, charBinary, j);
      if charBinary[j] == '1' {
        value := if value.NaN? || j >= |fib| then NaN else Num(value.n + fib[j]);
      }
      j := j + 1;
    }
    assert charBinary[..j] == charBinary;
  }

  /** String.fromCharCode: the value modulo 2^16, NaN read as 0. */
  function Character(v: Value): CodeUnit
  {
    if v.NaN? then 0 else v.n % 65536
  }

  /** A code unit read back as a number is itself. */
  lemma CharacterOfCode(c: CodeUnit)
    ensures Character(Num(c)) == c
  {
  }

  // ---------------------------------------------------------------------
  // Round trips
  // ---------------------------------------------------------------------

  /** Code 0 encodes to "11" and decodes back, whatever follows. */
  lemma RoundTripZero(t: seq<int>, rest: string)
    requires IsCodingTable(t)
    ensures EncodeBits(t, 0, false) == "11"
    ensures DecodeBits(t, EncodeBits(t, 0, false) + rest, false) == Some(Decoded(Num(0), "11", 2))
  {
    EncodeShape(t, 0, false);
    FirstPair("11" + rest, 0);
  }

  /** A body with no "11" that ends in '1', then a terminator starting with '1': the first "11" straddles the join. */
  lemma FirstPairAtJoin(body: string, term: string, rest: string)
    requires |body| > 0 && body[|body| - 1] == '1' && |term| > 0 && term[0] == '1'
    requires forall j :: 0 <= j < |body| - 1 ==> !(body[j] == '1' && body[j + 1] == '1')
    ensures IndexOf11(body + term + rest) == |body| - 1
  {
    var s := body + term + rest;
    var L := |body| - 1;
    assert s[L] == body[L] && s[L + 1] == term[0];
    forall j | 0 <= j < L
      ensures !PairAt(s, j)
    {
      assert s[j] == body[j] && s[j + 1] == body[j + 1];
    }
    FirstPair(s, L);
  }

  /**
   * Where the first "11" of a code followed by anything lies: at the last
   * '1' of the body, which the terminator follows.
   */
  lemma PairAtLastOne(t: seq<int>, c: int, fixed: bool, rest: string)
    requires IsCodingTable(t) && 1 <= c < 10946
    ensures var body := Body(t, Zeck(t, c), 0, 0);
            |body| > 0 && EncodeBits(t, c, fixed) == body + Terminator(fixed) &&
            IndexOf11(EncodeBits(t, c, fixed) + rest) == |body| - 1
  {
    var ps := EncoderPositions(Greedy(t, 20, c));
    var body := Body(t, Zeck(t, c), 0, 0);
    EncodeShape(t, c, fixed);
    var L := ps[|ps| - 1];
    assert body[L] == '1';
    FirstPairAtJoin(body, Terminator(fixed), rest);
  }

  /** Decoding a string whose first "11" closes the given leading bits. */
  lemma DecodeAt(t: seq<int>, s: string, fixed: bool, body: string)
    requires |body| > 0 && |s| >= |body| + 1 && s[..|body|] == body && IndexOf11(s) == |body| - 1
    ensures DecodeBits(t, s, fixed) ==
              Some(Decoded(ValueOf(t, if fixed then body else body[..|body| - 1]), s[..|body| + 1], |body| + 1))
  {
    var L := |body| - 1;
    assert s[..L + 1] == body;
    if !fixed {
      assert s[..L] == body[..L];
    }
  }

  /**
   * Decoding a code followed by anything: the read stops after the first
   * '1' of the terminator, and the value is read over the whole body
   * (fixed) or over the body without its last '1' (as written).
   */
  lemma DecodeAfterCode(t: seq<int>, c: int, fixed: bool, rest: string)
    requires IsCodingTable(t) && 1 <= c < 10946
    ensures var enc := EncodeBits(t, c, fixed);
            var body := Body(t, Zeck(t, c), 0, 0);
            |body| > 0 && |enc| == |body| + |Terminator(fixed)| &&
            DecodeBits(t, enc + rest, fixed) ==
              Some(Decoded(ValueOf(t, if fixed then body else body[..|body| - 1]), (enc + rest)[..|body| + 1], |body| + 1))
  {
    var enc := EncodeBits(t, c, fixed);
    var body := Body(t, Zeck(t, c), 0, 0);
    PairAtLastOne(t, c, fixed, rest);
    var s := enc + rest;
    assert s == body + (Terminator(fixed) + rest);
    assert s[..|body|] == body;
    DecodeAt(t, s, fixed, body);
  }

  /** The whole body reads back as the code. */
  lemma BodyValue(t: seq<int>, c: int)
    requires IsCodingTable(t) && 0 <= c < 10946
    ensures ValueOf(t, Body(t, Zeck(t, c), 0, 0)) == Num(c)
  {
    var ps := EncoderPositions(Greedy(t, 20, c));
    EncodeShape(t, c, false);
    EncoderPositionsFacts(t, c);
    ValueOfOnes(t, Body(t, Zeck(t, c), 0, 0), ps);
  }

  /** The body without its last '1' reads back as the code less its largest term. */
  lemma BodyValueBeforeLast(t: seq<int>, c: int)
    requires IsCodingTable(t) && 1 <= c < 10946
    ensures var body := Body(t, Zeck(t, c), 0, 0);
            var z := Zeck(t, c);
            |body| > 0 && |z| > 0 && z[|z| - 1] >= 1 &&
            ValueOf(t, body[..|body| - 1]) == Num(c - z[|z| - 1])
  {
    var ps := EncoderPositions(Greedy(t, 20, c));
    var body := Body(t, Zeck(t, c), 0, 0);
    BodyPositions(t, c);
    ValueBeforeLast(t, body, ps);
    LargestTerm(t, c);
  }

  /** For a code of at least 1 the body ends in the '1' at its last position. */
  lemma BodyPositions(t: seq<int>, c: int)
    requires IsCodingTable(t) && 1 <= c < 10946
    ensures var ps := EncoderPositions(Greedy(t, 20, c));
            var body := Body(t, Zeck(t, c), 0, 0);
            OnesAt(body, ps) && StrictlyAscending(ps) && Below(ps, |t|) &&
            |ps| > 0 && |body| == ps[|ps| - 1] + 1
  {
    EncodeShape(t, c, false);
    EncoderPositionsFacts(t, c);
  }

  /** The terms other than the largest add up to the code less the largest. */
  lemma LargestTerm(t: seq<int>, c: int)
    requires IsCodingTable(t) && 1 <= c < 10946
    ensures var ps := EncoderPositions(Greedy(t, 20, c));
            var z := Zeck(t, c);
            |ps| > 0 && |z| == |ps| && Below(ps, |t|) && z[|z| - 1] >= 1 &&
            Sum(ValuesAt(t, ps[..|ps| - 1])) == c - z[|z| - 1]
  {
    var ps := EncoderPositions(Greedy(t, 20, c));
    EncoderPositionsFacts(t, c);
    SumDropLast(t, ps);
    TableFacts(t);
  }

  /**
   * As written, a code 1 <= c < 10946 does not survive: the first "11" is
   * the last '1' of the body followed by the terminator, so the decoder
   * drops the largest term and consumes one bit fewer than was written.
   */
  lemma RoundTripAsWritten(t: seq<int>, c: int, rest: string)
    requires IsCodingTable(t) && 1 <= c < 10946
    ensures var enc := EncodeBits(t, c, false);
            var z := Zeck(t, c);
            |z| > 0 && z[|z| - 1] >= 1 &&
            DecodeBits(t, enc + rest, false) == Some(Decoded(Num(c - z[|z| - 1]), enc[..|enc| - 1], |enc| - 1))
  {
    var enc := EncodeBits(t, c, false);
    var body := Body(t, Zeck(t, c), 0, 0);
    DecodeAfterCode(t, c, false, rest);
    BodyValueBeforeLast(t, c);
    assert (enc + rest)[..|body| + 1] == enc[..|enc| - 1];
  }

  /** Reading a body up to, and not including, its last '1'. */
  lemma ValueBeforeLast(t: seq<int>, body: string, ps: seq<nat>)
    requires OnesAt(body, ps) && StrictlyAscending(ps) && |ps| > 0 && |body| == ps[|ps| - 1] + 1
    requires Below(ps, |t|)
    ensures ValueOf(t, body[..|body| - 1]) == Num(Sum(ValuesAt(t, ps[..|ps| - 1])))
  {
    assert body[|body| - 1] == '1' by {
      assert ps[|ps| - 1] in ps;
    }
    OnesAtDropOne(body, ps);
    ValueOfOnes(t, body[..|body| - 1], ps[..|ps| - 1]);
  }

  lemma SumDropLast(t: seq<int>, ps: seq<nat>)
    requires |ps| > 0 && Below(ps, |t|)
    ensures Sum(ValuesAt(t, ps[..|ps| - 1])) == Sum(ValuesAt(t, ps)) - t[ps[|ps| - 1]]
  {
    var L := ps[|ps| - 1];
    var ps' := ps[..|ps| - 1];
    assert ps == ps' + [L];
    SumValuesSnoc(t, ps', L);
  }

  /** The example the explorer shows: 'F' (70 = 2 + 13 + 55) encodes to 001000100111 and decodes to 15. */
  lemma LetterF(t: seq<int>)
    requires IsCodingTable(t)
    ensures EncodeBits(t, 70, false) == "001000100111"
    ensures DecodeBits(t, EncodeBits(t, 70, false), false) == Some(Decoded(Num(15), "00100010011", 11))
  {
    LetterFTerms(t);
    LetterFBody(t);
    var enc := EncodeBits(t, 70, false);
    assert enc == "001000100111";
    RoundTripAsWritten(t, 70, "");
    assert enc + "" == enc;
    assert enc[..|enc| - 1] == "00100010011";
  }

  /** The first table entries. */
  lemma SmallEntries(t: seq<int>)
    requires IsCodingTable(t)
    ensures t[0] == 1 && t[1] == 1 && t[2] == 2 && t[3] == 3 && t[4] == 5 && t[5] == 8
    ensures t[6] == 13 && t[7] == 21 && t[8] == 34 && t[9] == 55 && t[10] == 89
  {
    CodingIsFibTable(t);
    FibValues();
    assert Fib(1) == 1 && Fib(2) == 1 && Fib(3) == 2 && Fib(4) == 3 && Fib(5) == 5 && Fib(6) == 8;
    assert Fib(7) == 13 && Fib(8) == 21;
  }

  /** The scan splits 70 into 2 + 13 + 55, at table indices 2, 6 and 9. */
  lemma LetterFTerms(t: seq<int>)
    requires IsCodingTable(t)
    ensures Greedy(t, 20, 70) == [2, 6, 9] && Zeck(t, 70) == [2, 13, 55]
  {
    SmallEntries(t);
    TableFacts(t);
    GreedySkipAbove(t, 20, 10, 70);
    GreedySkipAbove(t, 9, 7, 15);
    GreedySkipAbove(t, 6, 3, 2);
    GreedySkipAbove(t, 2, 0, 0);
    assert Greedy(t, 10, 70) == Greedy(t, 9, 15) + [9];
    assert Greedy(t, 7, 15) == Greedy(t, 6, 2) + [6];
    assert Greedy(t, 3, 2) == Greedy(t, 2, 0) + [2];
  }

  /** The encoder's loops write 0010001001 for the terms 2, 13, 55. */
  lemma LetterFBody(t: seq<int>)
    requires IsCodingTable(t)
    ensures Body(t, [2, 13, 55], 0, 0) == "0010001001"
  {
    SmallEntries(t);
    var z := [2, 13, 55];
    assert Body(t, z, 2, 9) == "1";
    assert Body(t, z, 2, 7) == "001";
    assert Body(t, z, 1, 6) == "1001";
    assert Body(t, z, 1, 4) == "001001";
    assert Body(t, z, 1, 3) == "0001001";
    assert Body(t, z, 0, 2) == "10001001";
    assert Body(t, z, 0, 0) == "0010001001";
  }

  /** The corrected code: every 1 <= c < 10946 decodes back, whatever follows it. */
  lemma RoundTripFixed(t: seq<int>, c: int, rest: string)
    requires IsCodingTable(t) && 1 <= c < 10946
    ensures var enc := EncodeBits(t, c, true);
            DecodeBits(t, enc + rest, true) == Some(Decoded(Num(c), enc, |enc|))
  {
    var enc := EncodeBits(t, c, true);
    var body := Body(t, Zeck(t, c), 0, 0);
    DecodeAfterCode(t, c, true, rest);
    BodyValue(t, c);
    assert (enc + rest)[..|body| + 1] == enc;
  }

  // ---------------------------------------------------------------------
  // encodeText and decodeText
  // ---------------------------------------------------------------------

  /** The concatenated codes of a text. */
  function EncodeTextBits(t: seq<int>, text: seq<CodeUnit>, fixed: bool): string
  {
    if text == [] then "" else EncodeBits(t, text[0], fixed) + EncodeTextBits(t, text[1..], fixed)
  }

  lemma {:induction false} EncodeTextSnoc(t: seq<int>, text: seq<CodeUnit>, x: CodeUnit, fixed: bool)
    ensures EncodeTextBits(t, text + [x], fixed) == EncodeTextBits(t, text, fixed) + EncodeBits(t, x, fixed)
    decreases |text|
  {
    if text == [] {
      assert [] + [x] == [x];
    } else {
      assert (text + [x])[1..] == text[1..] + [x];
      EncodeTextSnoc(t, text[1..], x, fixed);
    }
  }

  lemma EncodeTextStep(t: seq<int>, text: seq<CodeUnit>, i: nat, fixed: bool)
    requires i < |text|
    ensures EncodeTextBits(t, text[..i + 1], fixed) == EncodeTextBits(t, text[..i], fixed) + EncodeBits(t, text[i], fixed)
  {
    PrefixSnoc(text, i);
    EncodeTextSnoc(t, text[..i], text[i], fixed);
  }

  /** EncodeCharacter, seen through the table the caller names. */
  method EncodeCharacterOn(ghost t: seq<int>, c: CodeUnit, fixed: bool) returns (binary: string)
    requires t == CodingTable()
    ensures binary == EncodeBits(t, c, fixed)
  {
    var e := EncodeCharacter(c, fixed);
    binary := e.binary;
  }

  method EncodeText(text: seq<CodeUnit>, fixed: bool) returns (encoded: string)
    ensures encoded == EncodeTextBits(CodingTable(), text, fixed)
  {
    ghost var t := CodingTable();
    encoded := "";
    var i := 0;
    while i < |text|
      invariant 0 <= i <= |text|
      invariant encoded == EncodeTextBits(t, text[..i], fixed)
    {
      var binary := EncodeCharacterOn(t, text[i], fixed);
      EncodeTextStep(t, text, i, fixed);
      ghost var done := text[..i + 1];
      encoded := encoded + binary;
      i := i + 1;
      assert done == text[..i];
    }
    assert text[..i] == text;
  }

  /** The characters decodeText produces: decode, advance, stop at the first failure. */
  function DecodeAll(t: seq<int>, s: string, fixed: bool): seq<CodeUnit>
    decreases |s|
  {
    if s == [] then []
    else match DecodeBits(t, s, fixed)
      case None => []
      case Some(d) => [Character(d.charCode)] + DecodeAll(t, s[d.length..], fixed)
  }

  /** One step of decodeText: a character decoded, the rest decoded after it. */
  lemma DecodeAllStep(t: seq<int>, s: string, fixed: bool, d: Decoded, rest: string)
    requires DecodeBits(t, s, fixed) == Some(d) && rest == s[d.length..]
    ensures DecodeAll(t, s, fixed) == [Character(d.charCode)] + DecodeAll(t, rest, fixed)
  {
  }

  lemma SnocRegroup<T>(whole: seq<T>, front: seq<T>, back: seq<T>, x: T, rest: seq<T>)
    requires whole == front + back && back == [x] + rest
    ensures whole == (front + [x]) + rest
  {
  }

  /** The same step, read at a position of the whole text. */
  lemma DecodeAllAt(t: seq<int>, encoded: string, fixed: bool, position: nat, d: Decoded)
    requires position <= |encoded| && DecodeBits(t, encoded[position..], fixed) == Some(d)
    ensures position + d.length <= |encoded|
    ensures DecodeAll(t, encoded[position..], fixed) ==
              [Character(d.charCode)] + DecodeAll(t, encoded[position + d.length..], fixed)
  {
    DropDrop(encoded, position, d.length);
    DecodeAllStep(t, encoded[position..], fixed, d, encoded[position + d.length..]);
  }

  /** A round of decodeText keeps the decoded prefix and the rest of the text in step. */
  lemma DecodeTextStep(t: seq<int>, encoded: string, fixed: bool, position: nat, d: Decoded,
                       decoded: seq<CodeUnit>, whole: seq<CodeUnit>)
    requires position <= |encoded| && DecodeBits(t, encoded[position..], fixed) == Some(d)
    requires whole == decoded + DecodeAll(t, encoded[position..], fixed)
    ensures position + d.length <= |encoded|
    ensures whole == (decoded + [Character(d.charCode)]) + DecodeAll(t, encoded[position + d.length..], fixed)
  {
    DecodeAllAt(t, encoded, fixed, position, d);
    SnocRegroup(whole, decoded, DecodeAll(t, encoded[position..], fixed), Character(d.charCode),
                DecodeAll(t, encoded[position + d.length..], fixed));
  }

  /** DecodeCharacter, seen through the table the caller names. */
  method DecodeCharacterOn(ghost t: seq<int>, s: string, fixed: bool) returns (r: Option<Decoded>)
    requires t == CodingTable()
    ensures r == DecodeBits(t, s, fixed)
  {
    r := DecodeCharacter(s, fixed);
  }

  method DecodeText(encoded: string, fixed: bool) returns (decoded: seq<CodeUnit>)
    ensures decoded == DecodeAll(CodingTable(), encoded, fixed)
  {
    ghost var t := CodingTable();
    ghost var whole := DecodeAll(t, encoded, fixed);
    decoded := [];
    var position := 0;
    while position < |encoded|
      invariant 0 <= position <= |encoded|
      invariant whole == decoded + DecodeAll(t, encoded[position..], fixed)
      decreases |encoded| - position
    {
      var d := DecodeCharacterOn(t, encoded[position..], fixed);
      if d.None? {
        break;
      }
      var next := d.value;
      DecodeTextStep(t, encoded, fixed, position, next, decoded, whole);
      ghost var rest := encoded[position + next.length..];
      decoded := decoded + [Character(next.charCode)];
      position := position + next.length;
      assert rest == encoded[position..];
    }
    if position == |encoded| {
      assert encoded[position..] == [];
    }
  }

  /** With the corrected code, decodeText(encodeText(text)) == text for codes 1 ..< 10946. */
  lemma {:induction false} TextRoundTripFixed(t: seq<int>, text: seq<CodeUnit>)
    requires IsCodingTable(t)
    requires forall k :: 0 <= k < |text| ==> 1 <= text[k] < 10946
    ensures DecodeAll(t, EncodeTextBits(t, text, true), true) == text
    decreases |text|
  {
    if text != [] {
      var enc := EncodeBits(t, text[0], true);
      var rest := EncodeTextBits(t, text[1..], true);
      assert EncodeTextBits(t, text, true) == enc + rest;
      RoundTripFixed(t, text[0], rest);
      AppendDrop(enc, rest);
      DecodeAllStep(t, enc + rest, true, Decoded(Num(text[0]), enc, |enc|), rest);
      TextRoundTripFixed(t, text[1..]);
      CharacterOfCode(text[0]);
      HeadTail(text);
    }
  }

  /** As written, the text "F" decodes to the single code 15. */
  lemma TextLetterF(t: seq<int>)
    requires IsCodingTable(t)
    ensures DecodeAll(t, EncodeTextBits(t, [70], false), false) == [15]
  {
    LetterF(t);
    var enc := EncodeBits(t, 70, false);
    assert EncodeTextBits(t, [70], false) == enc + "";
    assert enc + "" == enc;
    assert enc[11..] == "1";
    DecodeAllStep(t, enc, false, DecodeBits(t, enc, false).value, "1");
    assert DecodeBits(t, "1", false) == None;
  }
}
