/** Optional values, used where the source returns `None` or a row that may be missing. */
module Wrappers {

  datatype Option<+T> = None | Some(value: T)
}
