/** Result and option types shared by the model. */
module Wrappers {

  datatype Option<+T> = None | Some(value: T)

  /** `Failure` stands for an `anyhow` error and for a panic alike: the call gives no value. */
  datatype Result<+T> = Success(value: T) | Failure
}
