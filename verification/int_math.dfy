/** Integer division as the library's language defines it. Dafny's `/` is
    Euclidean (the remainder is never negative); the library's `/` on `int`
    truncates the quotient toward zero, so `-1 / 2` is `0` there and `-1`
    in Dafny. */
module IntMath {

  function Abs(a: int): nat
  {
    if a < 0 then -a else a
  }

  function Max(a: int, b: int): int
  {
    if a < b then b else a
  }

  /** Quotient of `a / b` truncated toward zero. */
  function TruncDiv(a: int, b: int): (q: int)
    requires b != 0
    // the remainder is smaller than the divisor and carries the sign of the dividend
    ensures Abs(a - q * b) < Abs(b)
    ensures a >= 0 ==> a - q * b >= 0
    ensures a <= 0 ==> a - q * b <= 0
  {
    if a >= 0 then
      (if b > 0 then a / b else -(a / -b))
    else
      (if b > 0 then -(-a / b) else -a / -b)
  }

  /** Truncation is symmetric about zero, which Euclidean division is not:
      rows `z` and `-z` of an offset layout are shifted by mirrored amounts. */
  lemma TruncDivNeg(a: int, b: int)
    requires b != 0
    ensures TruncDiv(-a, b) == -TruncDiv(a, b)
  {
  }

  /** On a non-negative dividend and a positive divisor the two divisions agree. */
  lemma TruncDivNonNegative(a: int, b: int)
    requires a >= 0 && b > 0
    ensures TruncDiv(a, b) == a / b
  {
  }
}
