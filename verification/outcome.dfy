/** Failure-carrying results shared by every module of the model.
    `Fatal` stands for the library's MSG_FATAL / INVALID_ARG_ABORT: the process aborts
    with a message and nothing after the call happens. */
module Outcome {

  datatype Result<+T> = Ok(value: T) | Fatal(reason: string) {

    predicate IsFailure() {
      Fatal?
    }

    function PropagateFailure<U>(): Result<U>
      requires Fatal?
    {
      Fatal(reason)
    }

    function Extract(): T
      requires Ok?
    {
      value
    }
  }

  /** A value that may be absent, such as an unset environment variable. */
  datatype Option<+T> = None | Some(value: T)
}
