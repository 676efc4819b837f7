/** Option and Result types for the model: `Result` carries either the value a
    pass computes or the Python exception the script raises instead. */
module Outcomes {

  datatype Option<+T> = None | Some(value: T)

  /** The two Python exceptions the flagging script can raise on its own data. */
  datatype PyError =
    | NameError(name: string)
    | ValueError(reason: string)

  datatype Result<+T> = Ok(value: T) | Raised(error: PyError)
}
