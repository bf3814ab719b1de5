/** Rust's `Option`, shared by the data structures that use it. */
module Wrappers {

  datatype Option<T> = None | Some(value: T)
}
