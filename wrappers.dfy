/** Optional values and the success-or-error outcome of a rejected or fulfilled JavaScript promise. */
module Wrappers {

  datatype Option<+T> = None | Some(value: T)

  /** `Err` carries the `message` of the `Error` a JavaScript function throws. */
  datatype Result<+T> = Ok(value: T) | Err(message: string)
}
