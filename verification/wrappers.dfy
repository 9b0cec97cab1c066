/** Rust's `Option`, the only wrapper the update resolver needs. */
module Wrappers {

  datatype Option<+T> = None | Some(value: T)
}
