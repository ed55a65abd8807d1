/** Option and Result values: a nullable node reference, and an operation that may fail. */
module Wrappers {

  /** A node reference that may be null. */
  datatype Option<+T> = None | Some(value: T)

  /** The outcome of an operation that throws on some inputs. */
  datatype Result<+R, +E> = Success(value: R) | Failure(error: E)
}
