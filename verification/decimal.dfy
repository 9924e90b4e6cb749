/** Decimal numerals: what `String(n)` writes for a non-negative integer
    and what `Number.parseInt(digits, 10)` reads back (exactly: the 2^53
    rounding of JavaScript numbers is not modelled). */
module Decimal {

  predicate IsDigit(c: char) {
    '0' <= c <= '9'
  }

  /** The value of a string of decimal digits. */
  function DecimalValue(digits: string): nat
  {
    if |digits| == 0 then 0
    else
      var d := digits[|digits| - 1] as int - '0' as int;
      DecimalValue(digits[..|digits| - 1]) * 10 + (if 0 <= d < 10 then d else 0)
  }

  /** The decimal digits of `n`, as `String(n)` writes it. */
  function ShowDecimal(n: nat): (r: string)
    ensures |r| > 0 && forall k :: 0 <= k < |r| ==> IsDigit(r[k])
  {
    var last := ['0' + (n % 10) as char];
    if n < 10 then last else ShowDecimal(n / 10) + last
  }

  /** Parsing reads back the number that was written. */
  lemma {:induction false} DecimalRoundTrip(n: nat)
    ensures DecimalValue(ShowDecimal(n)) == n
  {
    var s := ShowDecimal(n);
    if n >= 10 {
      DecimalRoundTrip(n / 10);
      assert s[..|s| - 1] == ShowDecimal(n / 10);
    } else {
      assert s[..0] == [];
    }
  }
}
