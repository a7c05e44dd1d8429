/** Optional values, used for partial lookups and undefined behaviour. */
module Wrappers {

  datatype Option<T> = None | Some(value: T)
}
