/** Failure-carrying values shared by the whole model.

    `Option` stands for a Python value that may be `None`; `Result` stands for
    a call that either returns a value or raises one of the exceptions the
    modelled code can raise. */
module Wrappers {

  /** A value that may be Python's `None`. */
  datatype Option<+T> = None | Some(value: T)

  /** The Python exceptions the modelled routines can raise. */
  datatype Error =
    | IndexError          // a list or array index past the end
    | ValueError          // a value that cannot be unpacked into a pair, or
                          // numpy arrays compared as sort keys
    | UnboundLocalError   // a local variable read before any assignment

  /** Either the value a routine returns or the exception it raises. */
  datatype Result<+T> = Ok(value: T) | Err(error: Error)
}
