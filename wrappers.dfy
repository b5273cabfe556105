/** Option and Outcome, the two small failure-aware wrappers the model needs. */
module Wrappers {

  datatype Option<+T> = None | Some(value: T)

  /** The `Result<(), E>` a traversal callback returns: `Pass` is `Ok(())`. */
  datatype Outcome<+E> = Pass | Fail(error: E)
}
