/**
 * Optional values, the one exception the analysis core raises (ValueError),
 * and the integer helpers both modules share.
 */
module Wrappers {

  datatype Option<+T> = None | Some(value: T)

  /** The outcome of an operation that either succeeds or raises ValueError. */
  datatype Result<+T> = Ok(value: T) | ValueError(msg: string)

  function Max(a: int, b: int): (m: int)
    ensures m >= a && m >= b && (m == a || m == b)
  {
    if a >= b then a else b
  }

  function Min(a: int, b: int): (m: int)
    ensures m <= a && m <= b && (m == a || m == b)
  {
    if a <= b then a else b
  }

  /** The quotient of n by d, rounded down. */
  function FloorDiv(n: nat, d: nat): (q: nat)
    requires d > 0
    ensures q * d <= n < q * d + d
    decreases n
  {
    if n < d then 0
    else
      var q' := FloorDiv(n - d, d);
      assert (q' + 1) * d == q' * d + d;
      q' + 1
  }

  lemma MulMonotone(a: int, b: int, c: nat)
    requires a <= b
    ensures a * c <= b * c
  {
  }
}
