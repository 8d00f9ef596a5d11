/** Failure-carrying results for the pyfsa operations that raise a Python exception. */
module Wrappers {

  /** The Python exceptions the modelled code can raise. */
  datatype Error =
    | IndexError   // pop from an empty list, or pop(-2) on a list shorter than two
    | KeyError     // a dictionary lookup of a missing key
    | TypeError    // iterating over None
    | RecursionError  // nesting deeper than the interpreter's recursion limit

  datatype Result<+T> = Ok(value: T) | Err(error: Error)

  datatype Option<+T> = None | Some(value: T)
}
