/**
 Outcomes of the Go methods this project models.

 Every Go method modelled here either returns normally, with or without an
 error, or panics. A method with a pointer receiver is modelled as a function
 from the receiver's value before the call (and its input) to a `Run` that
 carries the receiver's value after the call, so that "the receiver is left
 unchanged on error" can be stated. Functions without a receiver put their
 first result in `value` (the zero value the Go code returns beside an error).
 */
module Outcomes {

  /** The result of one call: a normal return, an error return, or a panic. */
  datatype Run<+R, +E> =
    | Ok(value: R)
    | Err(value: R, error: E)
    | Crash

  datatype Option<+T> = None | Some(value: T)
}
