/** Failure-carrying datatypes shared by the maze modules. */
module Wrappers {

  /** An optional value; `None` plays the part of Python's `None` default arguments. */
  datatype Option<+T> = None | Some(value: T)

  /** Either a value or the error that an operation raised instead of returning one. */
  datatype Result<+T, +E> = Success(value: T) | Failure(error: E)
}
