/** Optional values and results with an error, for the lookups that may miss and the
    operations of the registries that may be rejected. */
module Wrappers {

  datatype Option<+T> = None | Some(value: T)

  datatype Result<+T, +E> = Ok(value: T) | Err(error: E)
}
