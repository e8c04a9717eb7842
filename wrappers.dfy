/** Option and Result types shared by every solver model.  A Python exception
    raised by a solver becomes an `Err` carrying the exception's kind. */
module Wrappers {

  datatype Option<+T> = None | Some(value: T)

  /** The Python exception kinds the solvers can raise, plus `OutOfFuel` for a
      `while True` loop that the model cuts off after a bounded number of rounds. */
  datatype Error =
    | IndexError
    | KeyError
    | ValueError
    | TypeError
    | AttributeError
    | ZeroDivisionError
    | RecursionError
    | OutOfFuel

  datatype Result<+T> = Ok(value: T) | Err(error: Error)

  /** Python's `x or 0` for an optional integer cache: `None` and `0` both give 0. */
  function OrZero(o: Option<int>): int {
    if o.Some? then o.value else 0
  }
}
