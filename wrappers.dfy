/** The one failure-carrying type the model needs. */
module Wrappers {

  /** A Go `error` value: `None` stands for `nil`, `Some(msg)` for an error whose
      `Error()` text is `msg`. */
  datatype Option<+T> = None | Some(value: T)
}
