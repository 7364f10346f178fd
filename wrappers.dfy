/** Absent-or-present values (JavaScript's `undefined`) and success-or-error results
    (a value or a thrown error). */
module Wrappers {

  datatype Option<+T> = None | Some(value: T)

  datatype Result<+T, +E> = Ok(value: T) | Err(error: E)
}
