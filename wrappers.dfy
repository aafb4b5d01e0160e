/** Failure-carrying result types shared by both cores. */
module Wrappers {

  datatype Option<+T> = None | Some(value: T)

  /** The exceptions the Python tokenizer can raise, and the C++ parse failures. */
  datatype Error =
    | IndexError      // a list index past the end
    | KeyError        // a dictionary lookup of a missing key
    | ValueError      // `max`/`min` of an empty sequence, `chr` out of range, an unknown token id
    | AssertionError  // a failed `assert` statement

  datatype Result<+T> = Ok(value: T) | Err(error: Error)
}
