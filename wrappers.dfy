/** Optional values: a key that may be missing from a storage record or a request. */
module Wrappers {

  datatype Option<+T> = None | Some(value: T)
}
