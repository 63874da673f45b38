/** Small types shared by every module: optional values and the machine
    integer widths that the service's values live in. */
module Base {

  /** The usual Some/None datatype, standing for Rust's `Option`. */
  datatype Option<T> = None | Some(value: T)

  /** An octet, as in an HTTP header value. */
  newtype byte = x: int | 0 <= x < 0x100

  /** Exclusive upper bound of Rust's `usize` on a 64-bit target. */
  const UsizeBound: int := 0x1_0000_0000_0000_0000

  /** Rust's `usize` on a 64-bit target. */
  type Usize = x: int | 0 <= x < UsizeBound

  /** Exclusive upper bound of the nonnegative `i64` values. */
  const I64Bound: int := 0x8000_0000_0000_0000
}
