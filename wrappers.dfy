/** Optional values (a JavaScript `null`/`undefined`, a Python `None`, an SQL `NULL`)
    and results that are either a value or the error a call throws or answers with. */
module Wrappers {

  datatype Option<T> = None | Some(value: T)

  datatype Result<T, E> = Ok(value: T) | Err(error: E)
}
