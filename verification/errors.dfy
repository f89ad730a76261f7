/** Failure values of the solver: the two Python exceptions the scoring step can raise. */
module Errors {

  /** A value or the error that aborted the computation producing it. */
  datatype Result<+T, +E> = Success(value: T) | Failure(error: E)

  /** `KeyError(k)`: a dictionary lookup of the missing key `k`.
      `ValueError(x)`: `list.remove(x)` on a list that does not hold `x`. */
  datatype PyError = KeyError(key: string) | ValueError(item: string)
}
