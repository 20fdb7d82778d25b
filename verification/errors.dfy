/** The application's error kinds and the Option/Result wrappers every
    fallible operation of the grid-path engine returns. */
module Errors {

  /** The error enum of the application, variant for variant. */
  datatype AppError =
    | InvalidPath
    | ParseStringError(message: string)
    | StartNotSet
    | EndNotSet
    | FailedRenderFile
    | InvalidAuthCredentials
    | FailedUpdateConfig
    | FailedTakeScreenshot

  datatype Option<+T> = None | Some(value: T)

  /** Success carries a value, failure carries one of the application errors. */
  datatype Result<+T> = Ok(value: T) | Err(error: AppError)
}
