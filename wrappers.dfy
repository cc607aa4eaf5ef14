/** Optional values: the model's counterpart of Swift's `T?`. */
module Wrappers {

  datatype Option<T> = None | Some(value: T)
}
