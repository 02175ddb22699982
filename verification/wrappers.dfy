/** Option and Result, the failure-carrying values used across the model.
    A Python exception raised by the modelled code becomes a Failure whose
    Error names the exception class. */
module Wrappers {

  datatype Option<+T> = None | Some(value: T)

  /** The Python exception classes the modelled code can raise. */
  datatype Error =
    | IndexError   // indexing past the end of a str or list
    | KeyError     // a column or key that does not exist
    | TypeError    // comparing or matching values of incompatible types
    | ValueError   // str.index without a match, or a tuple unpacking of the wrong size

  datatype Result<+T> = Ok(value: T) | Failure(error: Error)
}
