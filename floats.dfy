/**
 * Rust's `f64`, kept as its IEEE 754 binary64 bit pattern. Neither the text form
 * (`format!("{}", x)`) nor the parser (`f64::from_str`) is computed here: both are
 * parameters of the operations that use them.
 */
module Floats {
  import opened Wrappers

  type F64 = bv64

  /** `format!("{}", x)` for an `f64`. */
  type Format = F64 -> string

  /** `f64::from_str(s).ok()`. */
  type Parse = string -> Option<F64>
}
