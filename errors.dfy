/** Go's error values and the two wrappers the model uses in place of Go's
    multiple return values. */
module Errors {

  datatype Option<+T> = None | Some(value: T)

  /** A Go pair `(T, error)` in which exactly one half is meaningful. */
  datatype Result<+T> = Ok(value: T) | Fail(error: Error)

  /** The `error` values the core creates or passes on. */
  datatype Error =
    | Message(text: string)               // errors.New(text), or an error handed over by a collaborator
    | PageError(page: nat, cause: Error)  // errors.Wrapf(cause, "cannot get page %d", page)
}
