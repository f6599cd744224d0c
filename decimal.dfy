/** Decimal digit runs: the value `strtol` reads from them and the text `%d` writes. */
module Decimal {
  import opened CString

  predicate AllDigits(t: seq<char>)
  {
    forall k :: 0 <= k < |t| ==> IsDigit(t[k])
  }

  function DigitValue(c: char): nat
    requires IsDigit(c)
  {
    c as int - '0' as int
  }

  function DigitChar(d: nat): (c: char)
    requires d < 10
    ensures IsDigit(c) && DigitValue(c) == d
  {
    ('0' as int + d) as char
  }

  /** The base-10 value of a run of digits, most significant first */
  function DecimalValue(t: seq<char>): nat
    requires AllDigits(t)
  {
    if |t| == 0 then 0 else DecimalValue(t[..|t| - 1]) * 10 + DigitValue(t[|t| - 1])
  }

  /** `%d` of a non-negative value: the shortest digit run, with no leading zero */
  function DecimalText(n: nat): (t: seq<char>)
    ensures 0 < |t| && AllDigits(t)
    ensures 1 < |t| ==> t[0] != '0'
  {
    if n < 10 then [DigitChar(n)] else DecimalText(n / 10) + [DigitChar(n % 10)]
  }

  lemma {:induction false} DecimalRoundTrip(n: nat)
    ensures DecimalValue(DecimalText(n)) == n
  {
    if n >= 10 {
      var t := DecimalText(n);
      assert t[..|t| - 1] == DecimalText(n / 10);
      DecimalRoundTrip(n / 10);
    }
  }

  /** Values below 10^w print in at most w digits. */
  lemma {:induction false} DecimalTextWidth(n: nat, w: nat, bound: nat)
    requires 0 < w && bound == Pow10(w) && n < bound
    ensures |DecimalText(n)| <= w
  {
    if n >= 10 {
      assert n / 10 < Pow10(w - 1);
      DecimalTextWidth(n / 10, w - 1, Pow10(w - 1));
    }
  }

  function Pow10(w: nat): nat
  {
    if w == 0 then 1 else 10 * Pow10(w - 1)
  }
}
