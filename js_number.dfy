/** JavaScript's `parseInt` on the tokens the parsers extract, and the decimal
    numerals in which the daemon prints its counters. */
module JsNumber {
  import opened JsRegex

  /** A `parseInt` result: an integer, or "not a number". */
  datatype JsInt = Int(value: int) | NaN

  function DigitValue(c: char): nat
    requires IsDigit(c)
  {
    c as int - '0' as int
  }

  function DigitChar(d: nat): (c: char)
    requires d < 10
    ensures IsDigit(c) && DigitValue(c) == d
  {
    ('0' as int + d) as char
  }

  /** The value of a string of decimal digits, most significant first. */
  function DecimalValue(ds: string): nat
    requires AllMatch(ds, Digits)
    decreases |ds|
  {
    if ds == [] then 0 else 10 * DecimalValue(ds[..|ds| - 1]) + DigitValue(ds[|ds| - 1])
  }

  /** The decimal numeral of `n` without leading zeros. */
  function DecimalText(n: nat): (r: string)
    ensures IsNumeral(r)
  {
    if n < 10 then [DigitChar(n)] else DecimalText(n / 10) + [DigitChar(n % 10)]
  }

  lemma {:induction false} DecimalTextValue(n: nat)
    ensures DecimalValue(DecimalText(n)) == n
  {
    if n >= 10 {
      DecimalTextValue(n / 10);
      var t := DecimalText(n / 10) + [DigitChar(n % 10)];
      assert t[..|t| - 1] == DecimalText(n / 10);
    }
  }

  /** `parseInt(s)` without a radix: skip leading white space, take an optional
      sign, then the longest run of decimal digits; with no digit there the
      result is NaN. */
  function ParseInt(s: string): (r: JsInt)
    ensures NoneMatch(s, Digits) ==> r == NaN
  {
    var t := s[RunLen(s, Whitespace)..];
    var negative := t != [] && t[0] == '-';
    var u := if t != [] && (t[0] == '-' || t[0] == '+') then t[1..] else t;
    var n := RunLen(u, Digits);
    if n == 0 then NaN
    else
      assert u[0] in s;
      Int(if negative then -(DecimalValue(u[..n]) as int) else DecimalValue(u[..n]))
  }

  /** A run of digits is read up to the first character that is not a digit. */
  lemma ParseIntDigits(ds: string, rest: string)
    requires IsNumeral(ds)
    requires rest == [] || !IsDigit(rest[0])
    ensures ParseInt(ds + rest) == Int(DecimalValue(ds))
  {
    var s := ds + rest;
    assert !IsSpace(s[0]);
    RunLenUnique(s, Whitespace, 0);
    assert s[0..] == s;
    assert rest != [] ==> s[|ds|] == rest[0];
    RunLenUnique(s, Digits, |ds|);
    assert s[..|ds|] == ds;
  }

  /** A leading minus sign negates the digits that follow it. */
  lemma ParseIntNegative(ds: string, rest: string)
    requires IsNumeral(ds)
    requires rest == [] || !IsDigit(rest[0])
    ensures ParseInt("-" + ds + rest) == Int(-(DecimalValue(ds) as int))
  {
    var s := "-" + ds + rest;
    assert s[0] == '-' && !IsSpace(s[0]);
    RunLenUnique(s, Whitespace, 0);
    assert s[0..] == s;
    SignedDigits(ds, rest);
    assert s[1..] == ds + rest;
  }

  lemma SignedDigits(ds: string, rest: string)
    requires IsNumeral(ds)
    requires rest == [] || !IsDigit(rest[0])
    ensures RunLen(ds + rest, Digits) == |ds| && (ds + rest)[..|ds|] == ds
  {
    var u := ds + rest;
    assert rest != [] ==> u[|ds|] == rest[0];
    assert forall k :: 0 <= k < |ds| ==> u[k] == ds[k];
    RunLenUnique(u, Digits, |ds|);
  }

  /** parseInt reads back what the daemon prints for a count. */
  lemma ParseIntDecimalText(n: nat)
    ensures ParseInt(DecimalText(n)) == Int(n)
  {
    ParseIntDigits(DecimalText(n), []);
    assert DecimalText(n) + [] == DecimalText(n);
    DecimalTextValue(n);
  }
}
