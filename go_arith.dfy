/** Integer division as the Go language defines it.

    Go's `/` truncates toward zero and `%` takes the sign of the dividend,
    whereas Dafny's `/` and `%` are Euclidean.  Every divisor in the calendar
    code is a positive constant, so the helpers below take a positive divisor.
 */
module GoArith {

  /** `a / b` in Go: the quotient truncated toward zero. */
  function GoDiv(a: int, b: int): (q: int)
    requires b > 0
    ensures a >= 0 ==> 0 <= a - b * q < b
    ensures a < 0 ==> -b < a - b * q <= 0
  {
    if a >= 0 then a / b else -((-a) / b)
  }

  /** `a % b` in Go: the remainder that goes with the truncated quotient. */
  function GoMod(a: int, b: int): (r: int)
    requires b > 0
    ensures a == b * GoDiv(a, b) + r
    ensures a >= 0 ==> 0 <= r < b
    ensures a < 0 ==> -b < r <= 0
  {
    a - b * GoDiv(a, b)
  }

  /** On a non-negative dividend Go and Dafny agree. */
  lemma GoDivNonNegative(a: int, b: int)
    requires a >= 0 && b > 0
    ensures GoDiv(a, b) == a / b && GoMod(a, b) == a % b
  {
  }
}
