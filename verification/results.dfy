/** Decode outcomes and optional values.

    Decoding reads untrusted bytes, so every failure is an explicit value
    rather than an abort. The kinds are abstract: the library's own
    messages are not modelled, only which condition stopped the decode. */
module Results {

  /** An optional value, for parsers whose only failure is "no parse". */
  datatype Option<+T> = None | Some(value: T)

  datatype DecodeError =
    | EndOfInput          // fewer bytes remain than the next read needs
    | InvalidBool         // a boolean byte other than 0x00 or 0x01
    | InvalidDiscriminant // an Option, Result or enum tag outside the declared range
    | Overflow            // a compact value or length too large for its target width
    | NonCanonical        // a compact integer not written in its shortest mode
    | InvalidText         // string bytes that are not well-formed UTF-8
    | TrailingData        // a total decode that left bytes unread

  /** Success with a value, or failure with a decode error; usable with `:-`. */
  datatype Result<+T> = Ok(value: T) | Err(error: DecodeError) {

    predicate IsFailure() {
      Err?
    }

    function PropagateFailure<U>(): Result<U>
      requires Err?
    {
      Err(error)
    }

    function Extract(): T
      requires Ok?
    {
      value
    }
  }
}
