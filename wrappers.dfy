/** Option, the model of Rust's `Option<T>` (and of a `Result` whose error is discarded by `.ok()`). */
module Wrappers {

  datatype Option<+T> = None | Some(value: T)
}
