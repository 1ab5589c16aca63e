/** Rust's `Option`, shared by the model. */
module Wrappers {

  /** Rust's `Option<T>`: either no value or exactly one. */
  datatype Option<+T> = None | Some(value: T)
}
