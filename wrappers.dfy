/** Optional values: a null pointer, a failed lookup or a missing match. */
module Wrappers {

  datatype Option<+T> = None | Some(value: T)
}
