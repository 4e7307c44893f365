/** Failure-compatible optional value shared by the matcher modules. */
module Wrappers {

  /** Absent (`None`) or present (`Some`) value; a parse outcome that did not match is `None`. */
  datatype Option<+T> = None | Some(value: T)
}
