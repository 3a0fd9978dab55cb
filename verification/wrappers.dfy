/** The Option and Result datatypes used throughout the model, and the instant type. */
module Wrappers {

  /** A value that may be missing: Python's `X | None`. */
  datatype Option<+T> = None | Some(value: T)

  /** The outcome of an operation that can raise: a value or the error it raised. */
  datatype Result<+T, +E> = Ok(value: T) | Err(error: E)
}

module Time {

  /** A point in (local) time. The model compares instants only, so any totally
      ordered carrier will do; unbounded integers are the simplest one. */
  type Instant = int
}
