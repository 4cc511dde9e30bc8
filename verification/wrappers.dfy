/** Option and Result datatypes used throughout the model. */
module Wrappers {

  /** A nullable value: `None` stands for Java's `null`. */
  datatype Option<+T> = None | Some(value: T)

  /** The outcome of a computation that may throw: `Err` carries the cause. */
  datatype Result<+T, +E> = Ok(value: T) | Err(error: E)
}
