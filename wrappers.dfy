/** Result types for the storage operations. Every asynchronous result of the
    in-memory backend (a promise that is resolved or rejected) is modelled as
    a synchronous value of one of these types. */
module Wrappers {

  /** A value that may be absent (JavaScript `undefined`). */
  datatype Option<+T> = None | Some(value: T)

  /** A resolved promise (`Ok`) or a rejected one (`Err`). */
  datatype Result<+T, +E> = Ok(value: T) | Err(error: E)
}
