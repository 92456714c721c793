/** Shared vocabulary: bytes, optional values, and the outcome of a step that
    may hit a Swift runtime trap (an out-of-range index or a force-unwrapped nil). */
module Basics {

  /** One octet, as Swift's `UInt8`. */
  type byte = x: int | 0 <= x < 256

  type Bytes = seq<byte>

  /** Swift's `Optional`. */
  datatype Option<+T> = None | Some(value: T)

  /** Why the client would stop with a runtime trap. */
  datatype Fault =
    | IndexOutOfRange   // array subscript outside the array
    | NilUnwrap         // `!` applied to nil
    | InvalidUtf8       // `String(data:encoding:)!` on bytes that are not UTF-8

  /** Either the value a Swift expression produces, or the trap it would raise. */
  datatype Result<+T> = Ok(value: T) | Trap(fault: Fault)
}
