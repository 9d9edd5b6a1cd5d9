/** Small shared vocabulary: byte strings and an optional value. */
module Common {

  /** Rust `String` values measured with `len()`: a sequence of bytes. */
  type Bytes = seq<bv8>

  /** Rust's `Option<T>`. */
  datatype Option<+T> = None | Some(value: T)
}
