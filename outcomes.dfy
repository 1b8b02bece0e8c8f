/** Value-or-error results used where the Python code raises an exception or
    where a decoder may find nothing. */
module Outcomes {

  /** `Ok` carries the value the Python function returns; `Err` carries what its
      exception would report. */
  datatype Result<T, E> = Ok(value: T) | Err(error: E)

  /** A value that may be absent. */
  datatype Option<T> = None | Some(value: T)
}
