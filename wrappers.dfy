/** Optional values: the model's stand-in for "absent" (a NaN baseline, a failed parse). */
module Wrappers {
  datatype Option<+T> = None | Some(value: T)
}
