/** The optional value returned by Rust's `Option` (used for `nth` and `HashMap::remove`). */
module Wrappers {

  datatype Option<+T> = None | Some(value: T)
}
