/** Decimal text: Rust's `i64::from_str` and the `{}` formatting of integers. */
module Decimal {
  import opened Wrappers

  const I64Min: int := -0x8000_0000_0000_0000
  const I64Max: int := 0x7FFF_FFFF_FFFF_FFFF

  predicate InI64(x: int) {
    I64Min <= x <= I64Max
  }

  predicate IsDigit(c: char) {
    '0' <= c <= '9'
  }

  predicate AllDigits(s: string) {
    forall i :: 0 <= i < |s| ==> IsDigit(s[i])
  }

  function DigitValue(c: char): (d: nat)
    requires IsDigit(c)
    ensures d < 10
  {
    c as int - '0' as int
  }

  function DigitChar(d: nat): (c: char)
    requires d < 10
    ensures IsDigit(c) && DigitValue(c) == d
  {
    ('0' as int + d) as char
  }

  /** The value of a string of decimal digits, most significant first. */
  function DigitsValue(s: string): nat
    requires AllDigits(s)
  {
    if s == [] then 0 else DigitsValue(s[..|s| - 1]) * 10 + DigitValue(s[|s| - 1])
  }

  /** The decimal text of a natural number, without leading zeros. */
  function ShowNat(n: nat): (s: string)
    ensures |s| > 0 && AllDigits(s)
  {
    if n < 10 then [DigitChar(n)] else ShowNat(n / 10) + [DigitChar(n % 10)]
  }

  /** Rust's `{}` of a signed integer: a `-` only for negative values. */
  function ShowInt(x: int): (s: string)
    ensures |s| > 0 && IsDigit(s[|s| - 1])
  {
    if x < 0 then "-" + ShowNat(-x) else ShowNat(x)
  }

  /** Rust's `i64::from_str`: an optional `+` or `-`, then one or more ASCII
      digits, and a value that fits in 64 bits; anything else is an error. */
  function ParseI64(s: string): (r: Option<int>)
    ensures r.Some? ==> InI64(r.value)
  {
    var signed := |s| > 0 && (s[0] == '+' || s[0] == '-');
    var digits := if signed then s[1..] else s;
    if digits == [] || !AllDigits(digits) then None
    else
      var v: int := if signed && s[0] == '-' then -(DigitsValue(digits) as int) else DigitsValue(digits);
      if InI64(v) then Some(v) else None
  }

  lemma {:induction false} ShowNatValue(n: nat)
    ensures DigitsValue(ShowNat(n)) == n
  {
    if n >= 10 {
      var s := ShowNat(n);
      assert s[..|s| - 1] == ShowNat(n / 10);
      ShowNatValue(n / 10);
    }
  }

  /** Printing an i64 and parsing it back gives the same value. */
  lemma ParseShowInt(x: int)
    requires InI64(x)
    ensures ParseI64(ShowInt(x)) == Some(x)
  {
    var s := ShowInt(x);
    if x < 0 {
      ShowNatValue(-x);
      assert s[0] == '-' && s[1..] == ShowNat(-x);
    } else {
      ShowNatValue(x);
      assert IsDigit(s[0]);
    }
  }
}
