/** Integer helpers for Rust's signed arithmetic. Dafny's `/` and `%` are
    Euclidean; Rust's `/` truncates toward zero and its `%` takes the sign
    of the dividend. */
module Arith {

  function Abs(x: int): (r: nat)
    ensures r == x || r == -x
  {
    if x < 0 then -x else x
  }

  function Min(a: int, b: int): (r: int)
    ensures r <= a && r <= b && (r == a || r == b)
  {
    if a <= b then a else b
  }

  /** Rust's `a / b` on signed integers: the quotient truncated toward zero. */
  function TDiv(a: int, b: int): (q: int)
    requires b > 0
    ensures a >= 0 ==> q >= 0
    ensures a <= 0 ==> q <= 0
  {
    if a >= 0 then a / b else -((-a) / b)
  }

  /** Rust's `a % b` on signed integers: the remainder has the sign of `a`. */
  function TRem(a: int, b: int): (r: int)
    requires b > 0
    ensures a >= 0 ==> 0 <= r < b
    ensures a < 0 ==> -b < r <= 0
  {
    if a >= 0 then a % b else -((-a) % b)
  }

  /** The truncated quotient is the largest multiple of `b` not beyond `a`
      in magnitude. */
  lemma TDivBounds(a: int, b: int)
    requires b > 0
    ensures Abs(TDiv(a, b)) * b <= Abs(a) < (Abs(TDiv(a, b)) + 1) * b
  {
  }

  /** Quotient and remainder put `a` back together. */
  lemma TRemIdentity(a: int, b: int)
    requires b > 0
    ensures a == TDiv(a, b) * b + TRem(a, b)
  {
  }

  function Pow10(k: nat): (r: nat)
    ensures r >= 1
  {
    if k == 0 then 1 else 10 * Pow10(k - 1)
  }

  lemma MulDistributes(b: int, x: int, y: int)
    ensures b * (x + y) == b * x + b * y
  {
  }

  lemma MulLeft(a: int, b: int, c: nat)
    requires a <= b
    ensures a * c <= b * c
  {
  }

  lemma MulSucc(a: int, b: int)
    ensures (a + 1) * b == a * b + b
  {
  }
}
