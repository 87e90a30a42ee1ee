/** Failure-compatible wrappers shared by the whole model. */
module Wrappers {

  datatype Option<+T> = None | Some(value: T)

  /** The value of a computation, or the exception that ended it. */
  datatype Result<+R, +E> = Ok(value: R) | Err(error: E) {
    predicate IsFailure() {
      Err?
    }

    function PropagateFailure<U>(): Result<U, E>
      requires Err?
    {
      Err(error)
    }

    function Extract(): R
      requires Ok?
    {
      value
    }
  }

  /** The outcome of a step that returns nothing on success. */
  datatype Outcome<+E> = Pass | Fail(error: E)
}

/** The Python exceptions the loader can raise, plus the one way it can fail to finish. */
module Errors {

  datatype Error =
    | IndexError   // indexing an empty list or an empty string
    | ValueError   // int() or float() rejects a token, or unpacking gets the wrong count
    | TypeError    // Plane(...) called with the wrong number of arguments
    | KeyError     // looking up a separation time that was never registered
    | NeverEnds    // the separation loop reached end of file: it would read empty lines forever
}
