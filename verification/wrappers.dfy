/** The optional value used for fallible parses (Rust's `Result<_, _>` when only `is_ok` matters). */
module Wrappers {
  datatype Option<+T> = None | Some(value: T)
}
