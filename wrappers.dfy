/** Optional values: Python's `None` next to a real value, JavaScript's `null`. */
module Wrappers {

  datatype Option<+T> = None | Some(value: T)
}
