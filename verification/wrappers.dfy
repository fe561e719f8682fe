/** Optional values, standing for Rust's `Option`. */
module Wrappers {

  /** `None` is absence; `Some(value)` carries a value. */
  datatype Option<+T> = None | Some(value: T)
}
