/** Machine integer ranges and the failure-carrying datatypes shared by the model. */
module Common {

  /** 2^64: one past the largest `u64` / `usize` value. */
  const TWO_TO_THE_64: int := 0x1_0000_0000_0000_0000

  type byte = b: int | 0 <= b < 0x100
  type U32 = x: int | 0 <= x < 0x1_0000_0000
  type U64 = x: int | 0 <= x < 0x1_0000_0000_0000_0000

  datatype Option<+T> = None | Some(value: T)

  /** Rust's `Result`: a value, or an error that is handed back to the caller. */
  datatype Result<+T, +E> = Ok(value: T) | Err(error: E)

  /** How a call that may abort ends: it returns a value, or it panics with a message. */
  datatype Outcome<+T> = Returned(value: T) | Panicked(message: string)
}
