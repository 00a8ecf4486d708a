/** Absent-or-present values and success-or-error results, as the library
    returns them (`Option` from lookups and intersections, `Result` from
    validated construction). */
module Wrappers {

  datatype Option<+T> = None | Some(value: T)

  datatype Result<+T, +E> = Ok(value: T) | Err(error: E)
}
