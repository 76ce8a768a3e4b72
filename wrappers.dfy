/** Small result types shared by the other modules. */
module Wrappers {

  datatype Option<+T> = None | Some(value: T)

  /** What a call that may throw does: it completes, or throws an error with a message. */
  datatype Outcome = Pass | Fail(message: string)
}
