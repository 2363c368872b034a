/** Option and Result types used across the model. */
module Outcomes {

  /** A value that may be missing: `None` stands for JavaScript's `null` or
      `undefined`, `Some(v)` for a present value. */
  datatype Option<+T> = None | Some(value: T)

  /** The outcome of an awaited step: `Ok` with its value, or `Err` with the
      description of the error that the step threw. */
  datatype Result<+T> = Ok(value: T) | Err(error: string)
}
