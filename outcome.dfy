/**
 * Optional values and the outcome of an operation that the subsetter can
 * abort with an exception.  A C# `null` becomes None, a thrown exception
 * becomes Failure carrying the exception's message.
 */
module Outcome {

  datatype Option<T> = None | Some(value: T)

  datatype Result<T> = Success(value: T) | Failure(error: string)

  /** The message of the IOException a seek to a negative stream position throws. */
  const SEEK_ERROR: string := "An attempt was made to move the position before the beginning of the stream."
}
