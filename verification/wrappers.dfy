/** Optional values and error-carrying results, standing in for Python's `None`
    and for the exceptions the importer raises. */
module Wrappers {

  datatype Option<+T> = None | Some(value: T)

  datatype Result<+T, +E> = Ok(value: T) | Err(error: E)
}
