/** The crate's error type, with the variants that src/unix_string.rs raises. */
module Errors {

  datatype Error =
    | InteriorNulByte        // a zero byte before the final position
    | MissingNulTerminator   // `validate` found no zero byte at all
    | Utf8Error              // `std::str::from_utf8` / `String::from_utf8` failed

  /** `crate::Result<T>`. */
  datatype Result<T> = Ok(value: T) | Err(error: Error)
}
