/**
 * The arbitrary-precision branch of the sequence viewer's number formatting
 * (src/components/SequenceViewer.jsx): the full form puts a space between
 * groups of three digits counted from the right, and the compact form picks
 * a magnitude suffix from the number of digits.
 */
module Digits {
  import opened FibMath

  datatype Option<T> = None | Some(value: T)

  predicate IsDigit(c: char)
  {
    '0' <= c <= '9'
  }

  /** A non-empty string of decimal digits, as BigInt.prototype.toString gives. */
  predicate IsDigits(s: string)
  {
    |s| > 0 && forall k :: 0 <= k < |s| ==> IsDigit(s[k])
  }

  function Pow10(k: nat): nat
  {
    if k == 0 then 1 else 10 * Pow10(k - 1)
  }

  /** The decimal spelling of a non-negative integer, without leading zeros. */
  function DecimalString(n: nat): (s: string)
    ensures IsDigits(s)
  {
    var d := ['0' + (n % 10) as char];
    if n < 10 then d else DecimalString(n / 10) + d
  }

  /** A number has more than k digits exactly when it is at least 10^k. */
  lemma {:induction false} DigitCount(n: nat, k: nat)
    ensures |DecimalString(n)| > k <==> k == 0 || n >= Pow10(k)
  {
    if k > 0 && n >= 10 {
      DigitCount(n / 10, k - 1);
    } else if k > 0 {
      PowAtLeastTen(k);
    }
  }

  lemma Pow10Values()
    ensures Pow10(18) == 1000000000000000000
    ensures Pow10(21) == 1000000000000000000000
  {
    assert Pow10(3) == 1000;
    assert Pow10(6) == 1000000;
    assert Pow10(9) == 1000000000;
    assert Pow10(12) == 1000000000000;
    assert Pow10(15) == 1000000000000000;
    assert Pow10(18) == 1000000000000000000;
  }

  lemma {:induction false} PowAtLeastTen(k: nat)
    requires k >= 1
    ensures Pow10(k) >= 10
  {
    if k > 1 { PowAtLeastTen(k - 1); }
  }

  // ---------------------------------------------------------------------
  // formatFullNumber: n.toString().replace(/\B(?=(\d{3})+(?!\d))/g, ' ')
  // ---------------------------------------------------------------------

  /**
   * Where the regular expression matches in a string of len digits: at a
   * position strictly inside the word (\B) that is followed by a positive
   * multiple of three digits and then the end of the digits.
   */
  predicate GapBefore(len: nat, p: nat)
  {
    0 < p < len && (len - p) % 3 == 0
  }

  /** The replacement from position p on: a space at each match, then the digit. */
  function Spaced(s: string, p: nat): string
    requires p <= |s|
    decreases |s| - p
  {
    if p == |s| then ""
    else (if GapBefore(|s|, p) then " " else "") + [s[p]] + Spaced(s, p + 1)
  }

  /** formatFullNumber on a BigInt, given its decimal digits. */
  function FormatFull(s: string): string
  {
    Spaced(s, 0)
  }

  /** An independent reference: peel groups of three off the right-hand end. */
  function GroupFromRight(s: string): string
    decreases |s|
  {
    if |s| <= 3 then s else GroupFromRight(s[..|s| - 3]) + " " + s[|s| - 3..]
  }

  function RemoveSpaces(s: string): string
  {
    if s == [] then [] else (if s[0] == ' ' then [] else [s[0]]) + RemoveSpaces(s[1..])
  }

  lemma {:induction false} RemoveSpacesAppend(a: string, b: string)
    ensures RemoveSpaces(a + b) == RemoveSpaces(a) + RemoveSpaces(b)
    decreases |a|
  {
    if a != [] {
      assert (a + b)[1..] == a[1..] + b;
      RemoveSpacesAppend(a[1..], b);
    } else {
      assert a + b == b;
    }
  }

  lemma {:induction false} SpacedRemove(s: string, p: nat)
    requires IsDigits(s) && p <= |s|
    ensures RemoveSpaces(Spaced(s, p)) == s[p..]
    decreases |s| - p
  {
    if p < |s| {
      var gap := if GapBefore(|s|, p) then " " else "";
      SpacedRemove(s, p + 1);
      RemoveSpacesAppend(gap + [s[p]], Spaced(s, p + 1));
      RemoveSpacesAppend(gap, [s[p]]);
      assert RemoveSpaces([s[p]]) == [s[p]];
      assert s[p..] == [s[p]] + s[p + 1..];
    }
  }

  /** Deleting the spaces gives back the digits. */
  lemma FormatFullRemoveSpaces(s: string)
    requires IsDigits(s)
    ensures RemoveSpaces(FormatFull(s)) == s
  {
    SpacedRemove(s, 0);
  }

  lemma {:induction false} SpacedNoGap(s: string, p: nat)
    requires p <= |s| <= 3
    ensures Spaced(s, p) == s[p..]
    decreases |s| - p
  {
    if p < |s| {
      SpacedNoGap(s, p + 1);
      assert s[p..] == [s[p]] + s[p + 1..];
    }
  }

  /** Up to three digits come back unchanged. */
  lemma FormatFullShort(s: string)
    requires |s| <= 3
    ensures FormatFull(s) == s
  {
    SpacedNoGap(s, 0);
  }

  lemma {:induction false} SpacedSplit(u: string, v: string, p: nat)
    requires |u| >= 1 && |v| == 3 && p <= |u|
    ensures Spaced(u + v, p) == Spaced(u, p) + " " + v
    decreases |u| - p
  {
    var s := u + v;
    if p < |u| {
      SpacedSplit(u, v, p + 1);
      assert GapBefore(|s|, p) == GapBefore(|u|, p);
      assert s[p] == u[p];
    } else {
      assert GapBefore(|s|, p);
      assert Spaced(s, p + 3) == "";
      assert Spaced(s, p + 2) == [v[2]];
      assert Spaced(s, p + 1) == [v[1]] + [v[2]];
      assert Spaced(s, p) == " " + [v[0]] + ([v[1]] + [v[2]]);
      assert v == [v[0]] + ([v[1]] + [v[2]]);
    }
  }

  /**
   * The regular-expression replacement is the grouping from the right: the
   * first group has one to three digits and every later group exactly three.
   */
  lemma {:induction false} FormatFullGroups(s: string)
    ensures FormatFull(s) == GroupFromRight(s)
    decreases |s|
  {
    if |s| <= 3 {
      FormatFullShort(s);
    } else {
      var u, v := s[..|s| - 3], s[|s| - 3..];
      assert s == u + v;
      SpacedSplit(u, v, 0);
      FormatFullGroups(u);
    }
  }

  lemma {:induction false} SpacedLength(s: string, p: nat)
    requires p <= |s|
    ensures |Spaced(s, p)| == |s| - p + (if p == 0 then (if |s| == 0 then 0 else (|s| - 1) / 3) else (|s| - p) / 3)
    decreases |s| - p
  {
    if p < |s| {
      SpacedLength(s, p + 1);
    }
  }

  /**
   * The full form never starts or ends with a space and has one space per
   * complete group of three after the first digit.
   */
  lemma FormatFullShape(s: string)
    requires IsDigits(s)
    ensures |FormatFull(s)| == |s| + (|s| - 1) / 3
    ensures FormatFull(s)[0] == s[0]
    ensures FormatFull(s)[|FormatFull(s)| - 1] == s[|s| - 1]
  {
    SpacedLength(s, 0);
    FormatFullGroups(s);
    GroupEnds(s);
  }

  lemma {:induction false} GroupEnds(s: string)
    requires |s| > 0
    ensures |GroupFromRight(s)| > 0
    ensures GroupFromRight(s)[0] == s[0]
    ensures GroupFromRight(s)[|GroupFromRight(s)| - 1] == s[|s| - 1]
    decreases |s|
  {
    if |s| > 3 {
      GroupEnds(s[..|s| - 3]);
    }
  }

  // ---------------------------------------------------------------------
  // formatNumberForDisplay on a BigInt: group index and magnitude suffix.
  // ---------------------------------------------------------------------

  const Suffixes: seq<string> := ["", "k", "M", "G", "T", "P"]

  /**
   * What the compact form shows, leaving out the scaled mantissa (a
   * floating-point quotient): the digits themselves when there is no group
   * to abbreviate, otherwise the suffix looked up by group index — None
   * where the table has no entry and JavaScript prints "undefined".
   */
  datatype Display = Plain(digits: string) | Compact(group: nat, suffix: Option<string>)

  function GroupIndex(len: nat): nat
  {
    if len == 0 then 0 else (len - 1) / 3
  }

  function Lookup(table: seq<string>, i: nat): Option<string>
  {
    if i < |table| then Some(table[i]) else None
  }

  function DisplayWith(table: seq<string>, s: string): Display
  {
    var group := GroupIndex(|s|);
    if group == 0 then Plain(s) else Compact(group, Lookup(table, group))
  }

  /** formatNumberForDisplay's BigInt branch on the digits s. */
  function FormatNumberForDisplay(s: string): (d: Display)
    requires IsDigits(s)
    ensures d.Plain? <==> |s| <= 3
    ensures d.Plain? ==> d.digits == s
    ensures d.Compact? ==> 3 * d.group < |s| <= 3 * d.group + 3
    ensures d.Compact? ==> (d.suffix.Some? <==> |s| <= 18)
  {
    DisplayWith(Suffixes, s)
  }

  /**
   * Terms of the sequence from index 88 on have 19 or more digits, so their
   * compact form has no suffix; every earlier term has one.
   */
  lemma SuffixMissingFromIndex88(k: nat)
    ensures var d := FormatNumberForDisplay(DecimalString(Fib(k)));
            d.Compact? && d.suffix.None? <==> k >= 88
  {
    var s := DecimalString(Fib(k));
    if k >= 88 {
      TermDigitsFrom88(k);
    } else {
      TermDigitsBelow88(k);
    }
    assert |s| > 18 <==> k >= 88;
  }

  lemma TermDigitsFrom88(k: nat)
    requires k >= 88
    ensures |DecimalString(Fib(k))| > 18
  {
    FibLargeValues();
    Pow10Values();
    FibMonotone(88, k);
    DigitCount(Fib(k), 18);
  }

  lemma TermDigitsBelow88(k: nat)
    requires k < 88
    ensures |DecimalString(Fib(k))| <= 18
  {
    FibLargeValues();
    Pow10Values();
    FibMonotone(k, 87);
    DigitCount(Fib(k), 18);
  }

  /** The suffix table extended by E (10^18), which covers every term up to index 99. */
  const SuffixesWithExa: seq<string> := Suffixes + ["E"]

  /** The compact form with the extended table. */
  function FormatNumberForDisplayFixed(s: string): (d: Display)
    requires IsDigits(s)
    ensures d.Plain? <==> |s| <= 3
    ensures d.Compact? ==> (d.suffix.Some? <==> |s| <= 21)
  {
    DisplayWith(SuffixesWithExa, s)
  }

  /** With the extended table every term the slider can reach (index < 100) has a suffix. */
  lemma FixedSuffixCoversSlider(k: nat)
    requires k <= 99
    ensures var d := FormatNumberForDisplayFixed(DecimalString(Fib(k)));
            d.Compact? ==> d.suffix.Some?
  {
    var s := DecimalString(Fib(k));
    assert |s| <= 21 by {
      FibLargeValues();
      Pow10Values();
      FibMonotone(k, 99);
      DigitCount(Fib(k), 21);
    }
  }
}
