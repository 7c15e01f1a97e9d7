/** Failure-compatible result types shared by the other modules. */
module Wrappers {

  /** `None` stands for a Python call that raises (or returns `None`). */
  datatype Option<+T> = None | Some(value: T)

  /** A value or the error the Python code raises instead. */
  datatype Result<+T, +E> = Ok(value: T) | Err(error: E)
}
