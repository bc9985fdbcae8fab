/** Option and Result, the failure-carrying datatypes the model uses for Python's
    `None` results and raised exceptions. */
module Wrappers {

  datatype Option<+T> = None | Some(value: T)

  datatype Result<+R, +E> = Success(value: R) | Failure(error: E)

  /** The Python exceptions the modelled code can raise. */
  datatype PyError =
    | IndexError   // a missing header segment, or an empty prefix segment
    | ValueError   // int() / float() of text that is not a number, or an invalid date
    | KeyError     // a lookup of a key that is not in a dict
    | TypeError    // strptime() given None
}
