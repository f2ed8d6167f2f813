/** Failure-compatible helper datatypes shared by the other modules. */
module Wrappers {

  /** A value that may be absent (a null handle or an empty `std::optional` in the C++ code). */
  datatype Option<+T> = None | Some(value: T)

  /** Either a value or an error (a thrown exception or an error return in the source). */
  datatype Result<+R, +E> = Success(value: R) | Failure(error: E)
}
