/** Option and Result shared by the models. */
module Outcomes {

  /** A value that may be absent (a DOM query that matched nothing, a regex that did not match). */
  datatype Option<+T> = None | Some(value: T)

  /** The outcome of a step that may throw: its value, or the exception it raised. */
  datatype Result<+T, +E> = Ok(value: T) | Err(error: E)
}
