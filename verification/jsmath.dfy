/**
  JavaScript's integer arithmetic where it differs from Dafny's: the `%`
  operator truncates toward zero, so its result takes the sign of the dividend,
  whereas Dafny's `%` is Euclidean and never negative.
 */
module JsMath {

  /** JavaScript's `a % b` for a positive divisor. */
  function JsRem(a: int, b: int): (r: int)
    requires b > 0
    ensures 0 <= a ==> 0 <= r < b
    ensures a < 0 ==> -b < r <= 0
    ensures 0 <= a ==> r == a % b
    ensures a < 0 ==> r == -((-a) % b)
  {
    if a >= 0 then a % b else -((-a) % b)
  }
}
