/** Result types shared by the other modules. */
module Wrappers {

  datatype Option<+T> = None | Some(value: T)

  /** `Err` stands for the exception the original raises. */
  datatype Result<+T, +E> = Ok(value: T) | Err(error: E)
}
