/**
 * Python's `str()` of an integer, and its inverse.
 *
 * The exchange reads the expiration timestamp as a decimal string; this module
 * renders integers the way `str(int)` does (an optional `-`, then the digits
 * without leading zeros) and gives an independent parser to check it against.
 */
module Decimal {
  import opened Wrappers

  predicate IsDigit(c: char) {
    '0' <= c <= '9'
  }

  predicate AllDigits(s: string) {
    forall i :: 0 <= i < |s| ==> IsDigit(s[i])
  }

  function DigitValue(c: char): (d: nat)
    requires IsDigit(c)
    ensures d < 10
  {
    c as int - '0' as int
  }

  function DigitChar(d: nat): (c: char)
    requires d < 10
    ensures IsDigit(c) && DigitValue(c) == d
  {
    ('0' as int + d) as char
  }

  /** `str(n)` for a non-negative `n`: at least one digit, and no leading zero unless `n` is zero. */
  function NatToDecimal(n: nat): (s: string)
    ensures |s| >= 1 && AllDigits(s)
    ensures s[0] == '0' ==> n == 0
    decreases n
  {
    if n < 10 then [DigitChar(n)] else NatToDecimal(n / 10) + [DigitChar(n % 10)]
  }

  /** `str(n)` for any integer `n`. */
  function IntToDecimal(n: int): string {
    if n < 0 then "-" + NatToDecimal(-n) else NatToDecimal(n)
  }

  /** The value of a string of digits, most significant first. */
  function DigitsValue(s: string): nat
    requires AllDigits(s)
    decreases |s|
  {
    if s == [] then 0 else 10 * DigitsValue(s[..|s| - 1]) + DigitValue(s[|s| - 1])
  }

  /** Reads an optionally negative decimal integer; `None` for anything else. */
  function ParseInt(s: string): Option<int> {
    if |s| >= 2 && s[0] == '-' && AllDigits(s[1..]) then Some(-(DigitsValue(s[1..]) as int))
    else if |s| >= 1 && AllDigits(s) then Some(DigitsValue(s))
    else None
  }

  lemma {:induction false} DigitsValueOfNatToDecimal(n: nat)
    ensures DigitsValue(NatToDecimal(n)) == n
    decreases n
  {
    if n >= 10 {
      DigitsValueOfNatToDecimal(n / 10);
      var s := NatToDecimal(n);
      assert s[..|s| - 1] == NatToDecimal(n / 10);
    }
  }

  /** Parsing undoes rendering, so the rendering of an integer determines it. */
  lemma ParseIntToDecimal(n: int)
    ensures ParseInt(IntToDecimal(n)) == Some(n)
  {
    var s := IntToDecimal(n);
    if n < 0 {
      DigitsValueOfNatToDecimal(-n);
      assert s[1..] == NatToDecimal(-n);
    } else {
      DigitsValueOfNatToDecimal(n);
    }
  }

  lemma IntToDecimalInjective(a: int, b: int)
    ensures IntToDecimal(a) == IntToDecimal(b) <==> a == b
  {
    ParseIntToDecimal(a);
    ParseIntToDecimal(b);
  }

  /** Multiplying a positive number by ten appends one `0`. */
  lemma NatToDecimalTimesTen(m: nat)
    requires m >= 1
    ensures NatToDecimal(10 * m) == NatToDecimal(m) + "0"
  {
    assert (10 * m) / 10 == m && (10 * m) % 10 == 0;
  }

  /** Multiplying a positive number by a thousand appends `000`. */
  lemma NatToDecimalTimesThousand(m: nat)
    requires m >= 1
    ensures NatToDecimal(1000 * m) == NatToDecimal(m) + "000"
  {
    NatToDecimalTimesTen(m);
    NatToDecimalTimesTen(10 * m);
    NatToDecimalTimesTen(100 * m);
    assert 1000 * m == 10 * (100 * m) && 100 * m == 10 * (10 * m);
  }
}
