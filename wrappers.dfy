/** Option and Result, used for the optional fields of a raw calendar event
    and for the failures of the event pass. */
module Wrappers {

  datatype Option<+T> = None | Some(value: T)

  datatype Result<+R, +E> = Success(value: R) | Failure(error: E)
}
