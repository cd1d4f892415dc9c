/** Optional values, used where the converters return early with a neutral result. */
module Wrappers {
  datatype Option<+T> = None | Some(value: T)
}
