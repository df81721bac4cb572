/** Option for the source's nullable references, and the outcome of the model-building
    operations that may raise AlreadyDefinedException or AlreadyPresentException. */
module Outcomes {

  datatype Option<+T> = None | Some(value: T)

  /** The two exceptions the graph-building operations raise. */
  datatype BuildError = AlreadyDefined | AlreadyPresent

  /** Pass when the operation returned normally, Fail(e) when it threw e. */
  datatype Outcome = Pass | Fail(error: BuildError)
}
