/** Optional values, standing for the null-or-pointer results of the source. */
module Wrappers {

  datatype Option<+T> = None | Some(value: T)
}
