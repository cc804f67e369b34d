/** Failure-compatible datatypes shared by the whole model, and the Python
    exceptions the modelled code can raise. */
module Wrappers {

  /** The conventional Some/None datatype; Python's `None` result of a fix is `None` here. */
  datatype Option<+T> = None | Some(value: T)

  /** A value, or the exception that stopped the computation. Usable with `:-`. */
  datatype Result<+T, +E> = Ok(value: T) | Err(error: E) {

    predicate IsFailure() {
      Err?
    }

    function PropagateFailure<U>(): Result<U, E>
      requires Err?
    {
      Err(error)
    }

    function Extract(): T
      requires Ok?
    {
      value
    }
  }

  /** The exceptions the repair engine can raise and does not catch; any of
      them ends the whole run. */
  datatype Exception =
    | ValueError         // int() of a text that is not a number
    | IndexError         // a list or string index, or a list pop, out of range
    | EOFError           // input() when the console has no more lines
    | FileNotFoundError  // open() of a path the file system does not hold
}
