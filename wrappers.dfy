/** Optional values: a reference-typed field of a request body that may be null. */
module Wrappers {

  datatype Option<+T> = None | Some(value: T)
}
