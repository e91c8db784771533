/** The optional value the Rust source returns from `get`, `newu` and `news`. */
module Wrappers {
  datatype Option<+T> = None | Some(value: T)
}
