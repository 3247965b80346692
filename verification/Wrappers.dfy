/** Optional values, standing for the source's nil pointers and zero times. */
module Wrappers {

  datatype Option<+T> = None | Some(value: T)
}
