/** Optional values and the Python exceptions the modelled code can raise. */
module Wrappers {

  /** `None` or a value; also stands for Python's `None` in a grid cell. */
  datatype Option<+T> = None | Some(value: T)

  /** The exceptions that the modelled operations raise instead of returning. */
  datatype PyError =
    | AttributeError(attribute: string)
    | NotImplementedError(message: string)

  /** A returned value or a raised exception. */
  datatype Result<+T> = Ok(value: T) | Err(error: PyError)
}
