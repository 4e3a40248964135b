/**
 * Every idl_trap_with call of rts/idl.c, and the two bounds traps of the
 * buffer primitives, as a value. A decoding step either succeeds with a value
 * and the cursor position after it, or traps with one of these reasons.
 */
module Outcome {

  datatype Trap =
    | OutOfBounds        // read_byte / read_word past the end of the buffer (the bounds check of buf.h)
    | NotShortest        // "not shortest encoding"
    | IntOverflow        // "int overflow"
    | MissingMagic       // "missing magic bytes"
    | TypeCountOverflow  // "overflow in number of types"
    | TooManyTypes       // "too many types"
    | TypeIndexTooHigh   // "type index too high"
    | IndexOutOfRange    // "type index out of range"
    | FutureType         // "future type"

  /** The outcome of a read at some cursor: a value and the next cursor, or a trap. */
  datatype Result<+T> = Ok(value: T, next: nat) | Trapped(reason: Trap)
}
