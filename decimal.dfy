/**
 * Decimal digit strings: Python's `str(n)` for a natural number, and the value
 * a string of digits denotes when pandas reads it as an integer.
 */
module Decimal {

  /** A non-empty string of the digits 0-9. */
  predicate IsDigits(s: string) {
    s != [] && forall k :: 0 <= k < |s| ==> '0' <= s[k] <= '9'
  }

  /** The number a string of digits denotes (leading zeros allowed, as in "07"). */
  function DigitsValue(s: string): nat {
    if s == [] then 0
    else 10 * DigitsValue(s[..|s| - 1]) + (if '0' <= s[|s| - 1] <= '9' then s[|s| - 1] as int - '0' as int else 0)
  }

  /** `str(n)`: the digits of `n`, which denote `n` again. */
  function DecimalString(n: nat): (r: string)
    ensures IsDigits(r)
    ensures DigitsValue(r) == n
    ensures n == 0 <==> r == "0"
    ensures r[0] != '0' || r == "0"
  {
    if n < 10 then
      [('0' as int + n) as char]
    else
      var s := DecimalString(n / 10) + [('0' as int + n % 10) as char];
      assert s[..|s| - 1] == DecimalString(n / 10);
      s
  }
}
