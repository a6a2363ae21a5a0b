/** The exceptions the Python program can raise, and the result types that carry them.
    A Python call that raises is modelled as a function or method that returns `Err`. */
module Failures {

  /** The Python exception classes this core can raise. */
  datatype Error =
    | IndexError         // a list index out of range: a missing field, `buffer[-1]` on an empty list
    | ValueError         // `int()`/`float()` of a malformed token, a bad clock, a wrong unpack count
    | ZeroDivisionError  // `(i+1) % dump_freq` with a zero `dump_freq`

  datatype Option<+T> = None | Some(value: T)

  datatype Result<+T> = Ok(value: T) | Err(error: Error)

  /** The outcome of a step that returns nothing but may raise. */
  datatype Outcome = Pass | Fail(error: Error)
}
