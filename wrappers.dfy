/** Success/failure outcomes shared by the detection pipeline and the HTTP handler. */
module Wrappers {

  datatype Option<+T> = None | Some(value: T)

  /** A pipeline outcome: the value on success, or the text of the exception that was caught. */
  datatype Result<+T> = Success(value: T) | Failure(message: string)
}
