/** What reading a value from the front of a byte string produces. */
module Decoded {
  import opened Bits

  datatype Option<+T> = None | Some(value: T)

  /** The reasons for which a read is refused. */
  datatype Fault =
    | UnexpectedEof
    | TooLong                      // integer representation too long
    | TooLarge                     // integer too large
    | InvalidFunctionType
    | SizeOutOfBounds
    | AlignmentTooLarge
    | TrailingData
    | IllegalOpcode
    | UnknownSubopcode
    | Unmodelled                   // decoded by the source, outside this model

  /** `used` is how far the cursor moved; `at` is where an error is reported, both relative to the start of the read. */
  datatype Decoded<+T> =
    | Got(value: T, used: nat)
    | Bad(fault: Fault, used: nat, at: nat)
  {
    /** The same outcome seen from `k` bytes earlier. */
    function Shift(k: nat): Decoded<T> {
      match this
      case Got(v, n) => Got(v, k + n)
      case Bad(f, n, at) => Bad(f, k + n, k + at)
    }
  }
}
