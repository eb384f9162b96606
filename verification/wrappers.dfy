/** Rust's `Option`: the model's optional value. */
module Wrappers {

  datatype Option<+T> = None | Some(value: T)
}
