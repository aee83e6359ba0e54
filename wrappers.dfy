/** Option and Result datatypes and a small integer helper, used across the model. */
module Wrappers {

  datatype Option<+T> = None | Some(value: T)

  datatype Result<+R, +E> = Success(value: R) | Failure(error: E)

  /** The non-negative part of an integer: how many times a `for (k = 0; k < n; k++)` loop runs. */
  function Max0(n: int): (m: nat)
    ensures m >= n && (n >= 0 ==> m == n)
  {
    if n < 0 then 0 else n
  }
}
