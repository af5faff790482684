/** Nullable values and success-or-error results shared by every module of the
    model: Java's `null` becomes `None`, a thrown exception becomes `Err`. */
module Outcomes {

  /** A value that may be absent (a Java reference that may be `null`). */
  datatype Option<+T> = None | Some(value: T)

  /** The result of an operation that either returns a value or throws. */
  datatype Result<+T, +E> = Ok(value: T) | Err(error: E)
}
