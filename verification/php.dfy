/**
 * The handful of PHP value semantics the tenancy engine relies on:
 * `isset` on a stored value, truthiness as used by `array_filter` and `empty`,
 * and string interpolation (`"{$id}"`) of tenant ids.
 */
module Php {

  /** A PHP scalar as it appears as a tenant id or a configuration entry. */
  datatype Value = Null | Int(i: int) | Str(s: string)

  /** `isset($v)` for a value that is present: true unless it is null. */
  predicate IsSet(v: Value) {
    !v.Null?
  }

  /** PHP truthiness: null, 0, "" and "0" are falsy. */
  predicate Truthy(v: Value) {
    match v
    case Null => false
    case Int(i) => i != 0
    case Str(s) => s != "" && s != "0"
  }

  predicate IsDigit(c: char) {
    '0' <= c <= '9'
  }

  predicate AllDigits(s: string) {
    forall i :: 0 <= i < |s| ==> IsDigit(s[i])
  }

  function DigitChar(d: nat): (c: char)
    requires d < 10
    ensures IsDigit(c) && c as int - '0' as int == d
  {
    ('0' as int + d) as char
  }

  function DigitValue(c: char): (d: nat)
    requires IsDigit(c)
    ensures d < 10
  {
    c as int - '0' as int
  }

  /** Decimal notation of a natural number, most significant digit first. */
  function NatToDecimal(n: nat): (s: string)
    ensures |s| >= 1
    ensures AllDigits(s)
    decreases n
  {
    if n < 10 then [DigitChar(n)] else NatToDecimal(n / 10) + [DigitChar(n % 10)]
  }

  /** The number a string of decimal digits denotes: the inverse of `NatToDecimal`. */
  function DecimalValue(s: string): nat
    requires AllDigits(s)
    decreases |s|
  {
    if |s| == 0 then 0 else DecimalValue(s[..|s| - 1]) * 10 + DigitValue(s[|s| - 1])
  }

  lemma {:induction false} DecimalRoundTrip(n: nat)
    ensures DecimalValue(NatToDecimal(n)) == n
    decreases n
  {
    if n >= 10 {
      DecimalRoundTrip(n / 10);
      var s := NatToDecimal(n);
      assert s[..|s| - 1] == NatToDecimal(n / 10);
    }
  }

  /** PHP's conversion of an integer to a string: optional minus sign, then decimal digits. */
  function IntToDecimal(i: int): (s: string)
    ensures |s| >= 1
    ensures i < 0 <==> s[0] == '-'
    ensures i < 0 ==> AllDigits(s[1..]) && DecimalValue(s[1..]) == -i
    ensures i >= 0 ==> AllDigits(s) && DecimalValue(s) == i
  {
    if i < 0 then
      DecimalRoundTrip(-i);
      var s := "-" + NatToDecimal(-i);
      assert s[1..] == NatToDecimal(-i);
      s
    else
      DecimalRoundTrip(i);
      NatToDecimal(i)
  }

  /** Distinct integers render to distinct strings. */
  lemma IntToDecimalInjective(a: int, b: int)
    requires IntToDecimal(a) == IntToDecimal(b)
    ensures a == b
  {
  }

  /** The string `"{$v}"` produces: null is empty, integers are decimal, strings are themselves. */
  function Render(v: Value): (s: string)
    ensures v.Str? ==> s == v.s
    ensures v.Null? ==> s == ""
    ensures v.Int? ==> s == IntToDecimal(v.i)
  {
    match v
    case Null => ""
    case Int(i) => IntToDecimal(i)
    case Str(s) => s
  }

  /** Rendering loses no information within one kind of value. */
  lemma RenderInjectiveOnInts(a: int, b: int)
    requires Render(Int(a)) == Render(Int(b))
    ensures a == b
  {
    IntToDecimalInjective(a, b);
  }
}
