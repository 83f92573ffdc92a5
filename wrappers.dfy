/** Optional results: the model of a Python function that may return `None`. */
module Wrappers {
  datatype Option<+T> = None | Some(value: T)
}
