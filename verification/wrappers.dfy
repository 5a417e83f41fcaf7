/** Optional values: Rust's `Option` and JavaScript's "value or null". */
module Wrappers {

  datatype Option<+T> = None | Some(value: T)
}
