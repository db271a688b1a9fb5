/** Failure-carrying datatypes shared by the task manager model. */
module Wrappers {

  /** An optional value: a missing due date, a task that `find` did not locate. */
  datatype Option<+T> = None | Some(value: T)

  /** The outcome of a handler: the new state, or the reason it was refused. */
  datatype Result<+T, +E> = Ok(value: T) | Err(error: E)
}
