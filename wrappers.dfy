/** Optional values, used where the source has `None`, a missing key or an unset option. */
module Wrappers {

  datatype Option<+T> = None | Some(value: T)
}
