/** Optional values: `None` stands for a C null pointer or an absent value. */
module Wrappers {
  datatype Option<+T> = None | Some(value: T)
}
