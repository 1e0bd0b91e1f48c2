/** Option and Result values used across the model. */
module Wrappers {

  datatype Option<+T> = None | Some(value: T)

  /** `Err` stands for an exception the source lets propagate. */
  datatype Result<+T> = Ok(value: T) | Err(reason: string)
}
