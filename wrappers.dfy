/** Rust's Option, as the stores and the queue return it. */
module Wrappers {

  datatype Option<+T> = None | Some(value: T)
}
