/**
 * The few pieces of java.lang that the tag code relies on: 32-bit `int`,
 * `Boolean.toString`, `Integer.toString`, and `UnsupportedOperationException`
 * modelled as the failing outcome of a void method.
 */
module JavaLang {
  import opened Wrappers

  /** Java's 32-bit signed `int`. */
  newtype int32 = x: int | -0x8000_0000 <= x < 0x8000_0000

  /** A thrown `UnsupportedOperationException` with its message. */
  datatype Exception = UnsupportedOperation(message: string)

  /** How a void Java method ends: normally, or by throwing. */
  datatype Outcome = Completed | Threw(exception: Exception)

  /** `Boolean.toString(b)`. */
  function BoolToString(b: bool): (r: string)
    ensures r == "true" || r == "false"
    ensures r == "true" <==> b
  {
    if b then "true" else "false"
  }

  predicate IsDigit(c: char) {
    '0' <= c <= '9'
  }

  function DigitChar(d: nat): (c: char)
    requires d < 10
    ensures IsDigit(c)
  {
    ('0' as int + d) as char
  }

  function DigitValue(c: char): (d: nat)
    requires IsDigit(c)
    ensures d < 10
  {
    (c as int - '0' as int) as nat
  }

  predicate AllDigits(s: string) {
    forall i :: 0 <= i < |s| ==> IsDigit(s[i])
  }

  /** The decimal digits of `n`, most significant first, without leading zeros. */
  function NatToDecimal(n: nat): string
    decreases n
  {
    if n < 10 then [DigitChar(n)] else NatToDecimal(n / 10) + [DigitChar(n % 10)]
  }

  /** `Integer.toString(i)`: an optional minus sign followed by the decimal digits of |i|. */
  function IntToString(i: int32): (r: string)
    ensures |r| > 0 && (r[0] == '-' <==> i < 0)
    ensures var digits := if i < 0 then r[1..] else r;
      |digits| > 0 && AllDigits(digits) && (|digits| > 1 ==> digits[0] != '0')
  {
    var magnitude := if i < 0 then -(i as int) else i as int;
    NatToDecimalIsCanonical(magnitude);
    if i < 0 then "-" + NatToDecimal(magnitude) else NatToDecimal(magnitude)
  }

  /** The value of a string of decimal digits, read most significant first. */
  function DecimalValue(s: string): nat
    requires AllDigits(s)
  {
    if s == [] then 0 else DecimalValue(s[..|s| - 1]) * 10 + DigitValue(s[|s| - 1])
  }

  /** A reference reader of `Integer.toString`'s output: an optional '-' and at least one digit. */
  function ParseInt(s: string): Option<int> {
    if |s| > 0 && s[0] == '-' then
      (if |s| > 1 && AllDigits(s[1..]) then Some(0 - DecimalValue(s[1..]) as int) else None)
    else if |s| > 0 && AllDigits(s) then Some(DecimalValue(s) as int)
    else None
  }

  /** `NatToDecimal(n)` is a non-empty digit string with no leading zero (other than "0" itself). */
  lemma {:induction false} NatToDecimalIsCanonical(n: nat)
    ensures |NatToDecimal(n)| > 0 && AllDigits(NatToDecimal(n))
    ensures |NatToDecimal(n)| > 1 ==> NatToDecimal(n)[0] != '0'
    decreases n
  {
    if n >= 10 {
      NatToDecimalIsCanonical(n / 10);
      var s := NatToDecimal(n / 10);
      assert NatToDecimal(n) == s + [DigitChar(n % 10)];
      if |s| == 1 {
        assert s[0] == DigitChar(n / 10);
      }
    }
  }

  /** Reading back the digits of `n` yields `n`. */
  lemma {:induction false} NatToDecimalRoundTrip(n: nat)
    ensures AllDigits(NatToDecimal(n)) && DecimalValue(NatToDecimal(n)) == n
    decreases n
  {
    NatToDecimalIsCanonical(n);
    if n >= 10 {
      NatToDecimalRoundTrip(n / 10);
      var s := NatToDecimal(n);
      assert s[..|s| - 1] == NatToDecimal(n / 10);
    }
  }

  /** `put(key, int)` stores a string from which the integer is recovered exactly. */
  lemma IntToStringRoundTrip(i: int32)
    ensures ParseInt(IntToString(i)) == Some(i as int)
  {
    if i < 0 {
      var m := -(i as int);
      NatToDecimalRoundTrip(m);
      NatToDecimalIsCanonical(m);
      var s := IntToString(i);
      assert s[1..] == NatToDecimal(m);
    } else {
      NatToDecimalRoundTrip(i as int);
      NatToDecimalIsCanonical(i as int);
    }
  }
}
