/**
 * The string key `toUnweighted` uses to remember which unordered node pairs
 * already received an edge: `Math.min(a, b) + "-" + Math.max(a, b)`, where
 * Java renders each `int` in decimal with a leading minus sign for negative
 * values. The module also defines the inverse parser, which shows that two
 * keys are equal exactly when they name the same unordered pair.
 */
module EdgeKey {
  import opened Wrappers

  predicate IsDigit(c: char) {
    '0' <= c <= '9'
  }

  predicate AllDigits(s: string) {
    forall i :: 0 <= i < |s| ==> IsDigit(s[i])
  }

  function DigitChar(d: nat): (c: char)
    requires d < 10
    ensures IsDigit(c)
  {
    ('0' as int + d) as char
  }

  function DigitValue(c: char): (d: nat)
    requires IsDigit(c)
    ensures d < 10
  {
    c as int - '0' as int
  }

  /** Decimal rendering of a natural number, without leading zeros. */
  function NatToString(n: nat): (s: string)
    ensures |s| >= 1 && AllDigits(s)
    decreases n
  {
    if n < 10 then [DigitChar(n)] else NatToString(n / 10) + [DigitChar(n % 10)]
  }

  /** Java's `Integer.toString`: a minus sign for negative values, then the digits. */
  function IntToString(i: int): (s: string)
    ensures |s| >= 1
    ensures s[0] == '-' <==> i < 0
    ensures forall k :: 0 < k < |s| ==> IsDigit(s[k])
  {
    if i < 0 then "-" + NatToString(-i) else NatToString(i)
  }

  function ParseNat(s: string): nat
    requires AllDigits(s)
    decreases |s|
  {
    if s == [] then 0 else 10 * ParseNat(s[..|s| - 1]) + DigitValue(s[|s| - 1])
  }

  function ParseInt(s: string): int
  {
    if |s| > 0 && s[0] == '-' && AllDigits(s[1..]) then -(ParseNat(s[1..]) as int)
    else if AllDigits(s) then ParseNat(s)
    else 0
  }

  lemma {:induction false} NatRoundTrip(n: nat)
    ensures ParseNat(NatToString(n)) == n
    decreases n
  {
    if n >= 10 {
      var s := NatToString(n);
      assert s[..|s| - 1] == NatToString(n / 10);
      NatRoundTrip(n / 10);
    }
  }

  lemma IntRoundTrip(i: int)
    ensures ParseInt(IntToString(i)) == i
  {
    var s := IntToString(i);
    if i < 0 {
      assert s[1..] == NatToString(-i);
      NatRoundTrip(-i);
    } else {
      NatRoundTrip(i);
    }
  }

  function Min(a: int, b: int): int { if a <= b then a else b }
  function Max(a: int, b: int): int { if a <= b then b else a }

  /** The dedup key of the unordered pair {a, b}. */
  function Key(a: int, b: int): string
  {
    IntToString(Min(a, b)) + "-" + IntToString(Max(a, b))
  }

  /** Index of the first '-' at or after `from`, or |s| when there is none. */
  function FindDash(s: string, from: nat): (k: nat)
    requires from <= |s|
    ensures from <= k <= |s|
    ensures k < |s| ==> s[k] == '-'
    ensures forall j :: from <= j < k ==> s[j] != '-'
    decreases |s| - from
  {
    if from == |s| then |s| else if s[from] == '-' then from else FindDash(s, from + 1)
  }

  /**
   * Reads a key back into its (smaller, larger) pair. The separator is the
   * first '-' after position 0, since only the first number can start with one.
   */
  function ParseKey(s: string): Option<(int, int)>
  {
    if |s| < 1 then None
    else
      var k := FindDash(s, 1);
      if k == |s| then None else Some((ParseInt(s[..k]), ParseInt(s[k + 1..])))
  }

  lemma KeyRoundTrip(a: int, b: int)
    ensures ParseKey(Key(a, b)) == Some((Min(a, b), Max(a, b)))
  {
    var lo, hi := IntToString(Min(a, b)), IntToString(Max(a, b));
    var s := Key(a, b);
    assert s[|lo|] == '-';
    assert forall j :: 1 <= j < |lo| ==> s[j] == lo[j];
    var k := FindDash(s, 1);
    assert k == |lo|;
    assert s[..k] == lo;
    assert s[k + 1..] == hi;
    IntRoundTrip(Min(a, b));
    IntRoundTrip(Max(a, b));
  }

  /** Two keys coincide exactly when they are built from the same unordered pair. */
  lemma KeyInjective(a: int, b: int, c: int, d: int)
    ensures Key(a, b) == Key(c, d) <==> (a == c && b == d) || (a == d && b == c)
  {
    if Key(a, b) == Key(c, d) {
      KeyRoundTrip(a, b);
      KeyRoundTrip(c, d);
    }
  }
}
