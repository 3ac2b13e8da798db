/** JavaScript's `String(x)` and `Number(s)` on the values a search form can
    hold: integers and `NaN`. */
module JsNumber {

  /** A JavaScript number restricted to the integers, plus `NaN`. */
  datatype Number = Finite(value: int) | NaN

  predicate IsDigit(c: char) { '0' <= c <= '9' }

  predicate AllDigits(s: string) {
    forall i :: 0 <= i < |s| ==> IsDigit(s[i])
  }

  function DigitChar(d: nat): (c: char)
    requires d < 10
    ensures IsDigit(c)
  {
    ('0' as int + d) as char
  }

  function DigitValue(c: char): nat
    requires IsDigit(c)
  {
    c as int - '0' as int
  }

  /** Decimal digits of a natural number, without leading zeros. */
  function NatToDecimal(n: nat): (r: string)
    ensures |r| >= 1 && AllDigits(r)
    ensures r[0] == '0' ==> n == 0
    decreases n
  {
    if n < 10 then [DigitChar(n)] else NatToDecimal(n / 10) + [DigitChar(n % 10)]
  }

  /** Value of a string of decimal digits (the empty string is 0). */
  function DecimalValue(s: string): nat
    requires AllDigits(s)
    decreases |s|
  {
    if s == [] then 0 else 10 * DecimalValue(s[..|s| - 1]) + DigitValue(s[|s| - 1])
  }

  /** `String(x)`. */
  function ToText(x: Number): (r: string)
    ensures |r| >= 1
  {
    match x
    case NaN => "NaN"
    case Finite(n) => if n < 0 then "-" + NatToDecimal(-n) else NatToDecimal(n)
  }

  /** `Number(s)`: the empty string is 0, an optional sign followed by
      decimal digits is that integer, and anything else is `NaN`. */
  function Parse(s: string): Number {
    if s == "" then Finite(0)
    else if (s[0] == '-' || s[0] == '+') && |s| > 1 && AllDigits(s[1..]) then
      Finite(if s[0] == '-' then -(DecimalValue(s[1..]) as int) else DecimalValue(s[1..]))
    else if AllDigits(s) then Finite(DecimalValue(s))
    else NaN
  }

  /** Reading back the digits of `n` gives `n`. */
  lemma {:induction false} DecimalRoundTrip(n: nat)
    ensures DecimalValue(NatToDecimal(n)) == n
    decreases n
  {
    if n >= 10 {
      var s := NatToDecimal(n);
      DecimalRoundTrip(n / 10);
      assert s[..|s| - 1] == NatToDecimal(n / 10);
    }
  }

  /** `Number(String(x)) === x` for every integer, and `NaN` stays `NaN`. */
  lemma {:induction false} ParseToText(x: Number)
    ensures Parse(ToText(x)) == x
  {
    match x
    case NaN =>
      assert !IsDigit(ToText(x)[0]);
    case Finite(n) =>
      if n < 0 {
        var d := NatToDecimal(-n);
        assert ("-" + d)[1..] == d;
        DecimalRoundTrip(-n);
      } else {
        DecimalRoundTrip(n);
      }
  }
}
