/** Shared vocabulary of the intset model: the capacity bound, the machine
    integer and byte domains, and the error outcomes of the entry points. */
module Common {

  /** Maximum number of elements an Intset can hold (the size of its array). */
  const MAX: nat := 500

  /** A C `int` on the target platform: 32-bit two's complement. */
  type int32 = x: int | -0x8000_0000 <= x < 0x8000_0000

  const INT32_MAX: int := 0x7FFF_FFFF

  /** One octet of a binary message. */
  type byte = x: int | 0 <= x < 0x100

  /** The ways an entry point can refuse its input. */
  datatype Error =
    | InvalidSyntax      // the text fails the validator
    | NumberOutOfRange   // a decimal token does not fit in an int32
    | CapacityExceeded   // the result would need more than MAX slots
    | TruncatedInput     // a binary message is shorter than it claims
    | NegativeCount      // a binary message claims fewer than zero elements

  datatype Result<T> = Ok(value: T) | Err(error: Error)

  /** Concatenation of sequences regroups freely. */
  lemma ConcatAssoc<T>(x: seq<T>, y: seq<T>, z: seq<T>)
    ensures x + (y + z) == (x + y) + z
  {
  }
}
