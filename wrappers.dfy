/** Option, Result and Outcome: the model's stand-ins for Python's `None` and raised `ValueError`s. */
module Wrappers {

  datatype Option<+T> = None | Some(value: T)

  /** `Ok` is a normal return; `Err` is a raised `ValueError`, tagged with why it was raised. */
  datatype Result<+T, +E> = Ok(value: T) | Err(error: E)

  /** A validator that returns `True` (`Pass`) or raises a `ValueError` (`Fail`). */
  datatype Outcome<+E> = Pass | Fail(error: E)

  /** The code as it is written, or with the findings made about it corrected. */
  datatype Variant = AsWritten | Corrected
}
