/** Number-to-text conversion and string ordering as JavaScript performs them on
    the values the pipeline handles: non-negative counters and timestamps
    (`'' + n`, `n.toString()`), array indices that may be -1, and the
    code-unit order that `Array.prototype.sort` uses when no comparator is given. */
module JsText {

  /** The character of one decimal digit. */
  function Digit(d: nat): (c: char)
    requires d < 10
    ensures '0' <= c <= '9'
    ensures c as int - '0' as int == d
  {
    (48 + d) as char
  }

  /** The decimal text of a natural number, without leading zeros: only zero
      itself starts with '0'. */
  function NatToDecimal(n: nat): (s: string)
    ensures 1 <= |s|
    ensures s[0] == '0' ==> n == 0
  {
    if n < 10 then [Digit(n)] else NatToDecimal(n / 10) + [Digit(n % 10)]
  }

  /** The text is made of digits only, ends in the last decimal digit of n, and
      is a single digit exactly for numbers below ten. */
  lemma {:induction false} DecimalShape(n: nat)
    ensures 1 <= |NatToDecimal(n)|
    ensures forall i :: 0 <= i < |NatToDecimal(n)| ==> '0' <= NatToDecimal(n)[i] <= '9'
    ensures |NatToDecimal(n)| == 1 <==> n < 10
    ensures NatToDecimal(n)[|NatToDecimal(n)| - 1] == Digit(n % 10)
  {
    if n >= 10 {
      DecimalShape(n / 10);
    }
  }

  /** Different numbers never get the same text, so ids built from a counter
      that never repeats never repeat either. */
  lemma {:induction false} NatToDecimalInjective(a: nat, b: nat)
    requires NatToDecimal(a) == NatToDecimal(b)
    ensures a == b
  {
    DecimalShape(a);
    DecimalShape(b);
    if a >= 10 && b >= 10 {
      var sa, sb := NatToDecimal(a / 10), NatToDecimal(b / 10);
      assert NatToDecimal(a) == sa + [Digit(a % 10)];
      assert NatToDecimal(b) == sb + [Digit(b % 10)];
      assert sa == NatToDecimal(a)[..|NatToDecimal(a)| - 1];
      assert sb == NatToDecimal(b)[..|NatToDecimal(b)| - 1];
      NatToDecimalInjective(a / 10, b / 10);
    }
  }

  /** Ten to the power k. */
  function Pow10(k: nat): (p: nat)
    ensures p >= 1
  {
    if k == 0 then 1 else 10 * Pow10(k - 1)
  }

  /** A number below 10^k has at most k digits. */
  lemma {:induction false} DecimalLength(n: nat, k: nat)
    requires 1 <= k && n < Pow10(k)
    ensures |NatToDecimal(n)| <= k
  {
    if n >= 10 {
      assert Pow10(1) == 10;
      assert k >= 2;
      assert n / 10 < Pow10(k - 1);
      DecimalLength(n / 10, k - 1);
    }
  }

  /** `String(i)` for an integer: a leading '-' for negatives. */
  function IntToString(i: int): (s: string)
    ensures 1 <= |s|
    ensures i < 0 <==> s[0] == '-'
  {
    DecimalShape(if i < 0 then -i else i);
    if i < 0 then "-" + NatToDecimal(-i) else NatToDecimal(i)
  }

  /** JavaScript's `a < b` on strings: lexicographic order of code units, where
      a proper prefix comes first. */
  predicate StringLess(a: string, b: string)
    ensures StringLess(a, b) ==> a != b
  {
    if |a| == 0 then |b| > 0
    else if |b| == 0 then false
    else if a[0] == b[0] then StringLess(a[1..], b[1..])
    else a[0] < b[0]
  }

  /** Of two strings, at most one is less than the other. */
  lemma {:induction false} StringLessAsymmetric(a: string, b: string)
    requires StringLess(a, b)
    ensures !StringLess(b, a)
  {
    if |a| > 0 && a[0] == b[0] {
      StringLessAsymmetric(a[1..], b[1..]);
    }
  }

  /** The string order is transitive. */
  lemma {:induction false} StringLessTransitive(a: string, b: string, c: string)
    requires StringLess(a, b) && StringLess(b, c)
    ensures StringLess(a, c)
  {
    if |a| > 0 && a[0] == b[0] && b[0] == c[0] {
      StringLessTransitive(a[1..], b[1..], c[1..]);
    }
  }
}
