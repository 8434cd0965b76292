/** A raised exception or the value returned instead, and a value that may be missing. */
module Outcomes {

  datatype Result<+T> = Success(value: T) | Failure(error: string)

  datatype Option<+T> = None | Some(value: T)
}
