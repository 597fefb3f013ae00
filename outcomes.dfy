/** Option and Result: the model's stand-ins for Java's null and for thrown exceptions. */
module Outcomes {

  datatype Option<+T> = None | Some(value: T)

  datatype Result<+T, +E> = Success(value: T) | Failure(error: E)
}
