/** Optional values: `None` stands for the exceptions and null results of the source. */
module Wrappers {

  datatype Option<T> = None | Some(value: T)
}
