/** Decimal text: what `%u`, `%zu` and `%d` print, and what a digit scanner reads back. */
module Decimal {
  import opened CText

  const SIZE_LIMIT: nat := 0x1_0000_0000_0000_0000

  function Digit(n: nat): (c: char)
    requires n < 10
    ensures IsDigit(c)
  {
    '0' + n as char
  }

  function DigitValue(c: char): (n: nat)
    requires IsDigit(c)
    ensures n < 10
  {
    c as int - '0' as int
  }

  function Dec(n: nat): (s: string)
    ensures |s| > 0
    ensures forall i :: 0 <= i < |s| ==> IsDigit(s[i])
    ensures |s| > 1 ==> s[0] != '0'
  {
    if n < 10 then [Digit(n)] else Dec(n / 10) + [Digit(n % 10)]
  }

  /** `%d`. */
  function DecInt(n: int): (s: string)
    ensures |s| > 0
  {
    if n < 0 then "-" + Dec(-n) else Dec(n)
  }

  /** The number that a run of digits denotes. */
  function Value(s: string): (n: nat)
    requires forall i :: 0 <= i < |s| ==> IsDigit(s[i])
  {
    if |s| == 0 then 0 else 10 * Value(s[..|s| - 1]) + DigitValue(s[|s| - 1])
  }

  lemma {:induction false} ValueOfDec(n: nat)
    ensures Value(Dec(n)) == n
  {
    var s := Dec(n);
    if n < 10 {
      assert s[..0] == [];
    } else {
      ValueOfDec(n / 10);
      assert s[..|s| - 1] == Dec(n / 10);
    }
  }

  function Pow10(k: nat): (p: nat)
    ensures p > 0
  {
    if k == 0 then 1 else 10 * Pow10(k - 1)
  }

  lemma {:induction false} DecLength(n: nat, k: nat)
    requires k > 0 && n < Pow10(k)
    ensures |Dec(n)| <= k
  {
    if n >= 10 {
      assert k > 1;
      DecLength(n / 10, k - 1);
    }
  }

  lemma {:induction false} ValueBound(s: string)
    requires forall i :: 0 <= i < |s| ==> IsDigit(s[i])
    ensures Value(s) < Pow10(|s|)
  {
    if |s| > 0 {
      ValueBound(s[..|s| - 1]);
    }
  }

  lemma {:induction false} Pow10Grows(a: nat, b: nat)
    requires a <= b
    ensures Pow10(a) <= Pow10(b)
  {
    if a < b {
      Pow10Grows(a, b - 1);
    }
  }

  /** A `size_t` prints in at most twenty digits. */
  lemma SizeDecLength(n: nat)
    requires n < SIZE_LIMIT
    ensures |Dec(n)| <= 20
  {
    assert Pow10(4) == 10000 by { assert Pow10(2) == 100; }
    assert Pow10(8) == 1_0000_0000 by { assert Pow10(6) == 100_0000; }
    assert Pow10(12) == 1_0000_0000_0000 by { assert Pow10(10) == 100_0000_0000; }
    assert Pow10(16) == 1_0000_0000_0000_0000 by { assert Pow10(14) == 100_0000_0000_0000; }
    assert Pow10(20) == 1_0000_0000_0000_0000_0000 by { assert Pow10(18) == 100_0000_0000_0000_0000; }
    DecLength(n, 20);
  }

  /** Where the run of digits at `i` ends. */
  function DigitsEnd(s: string, i: nat): (j: nat)
    requires i <= |s|
    ensures i <= j <= |s|
    ensures forall k :: i <= k < j ==> IsDigit(s[k])
    ensures j < |s| ==> !IsDigit(s[j])
    decreases |s| - i
  {
    if i < |s| && IsDigit(s[i]) then DigitsEnd(s, i + 1) else i
  }

  lemma {:induction false} DigitsEndAt(s: string, i: nat, j: nat)
    requires i <= j <= |s| && (forall k :: i <= k < j ==> IsDigit(s[k]))
    requires j < |s| ==> !IsDigit(s[j])
    ensures DigitsEnd(s, i) == j
    decreases j - i
  {
    if i < j {
      DigitsEndAt(s, i + 1, j);
    }
  }

  // Numbers in a text.

  /** A run of digits that denotes `n`. */
  predicate Number(digits: string, n: nat) {
    |digits| > 0 && (forall i :: 0 <= i < |digits| ==> IsDigit(digits[i])) && Value(digits) == n
  }

  lemma NumberOfDec(n: nat)
    ensures Number(Dec(n), n)
  {
    ValueOfDec(n);
  }

  /** The number that a text begins with. */
  function Leading(s: string): (n: nat) {
    Value(s[..DigitsEnd(s, 0)])
  }

  lemma LeadingOf(digits: string, rest: string, n: nat)
    requires Number(digits, n) && |rest| > 0 && !IsDigit(rest[0])
    ensures Leading(digits + rest) == n
  {
    var s := digits + rest;
    DigitsEndAt(s, 0, |digits|);
    assert s[..|digits|] == digits;
  }
}
