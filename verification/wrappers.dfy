/** Option and Result, the two shapes the loader pipeline uses for "absent" and "thrown". */
module Wrappers {

  /** A JavaScript value that may be `undefined`/`null` (None). */
  datatype Option<+T> = None | Some(value: T)

  /** The outcome of a call that may throw: its value, or the error it threw. */
  datatype Result<+T, +E> = Ok(value: T) | Err(error: E)
}
