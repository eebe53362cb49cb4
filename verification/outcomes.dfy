/** The two shapes an AlphaLab call can come back in: a value, or a refusal. */
module Outcomes {

  /** Python's `T | None`. */
  datatype Option<+T> = None | Some(value: T)

  /** A returned value, or the exception that was raised instead. */
  datatype Result<+T, +E> = Ok(value: T) | Err(error: E)
}
