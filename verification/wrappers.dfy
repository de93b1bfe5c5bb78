/** Optional value, used in place of a nullable pointer: `None` is NULL. */
module Wrappers {

  /** `None` stands for the C null pointer, `Some(v)` for a pointer or link to `v`. */
  datatype Option<+T> = None | Some(value: T)
}
