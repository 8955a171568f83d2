/** Failure-carrying values shared by every module of the model. */
module Base {

  datatype Option<T> = None | Some(value: T)

  /** The Python exceptions the modelled code raises or lets escape. */
  datatype Error =
    | ValueError(msg: string)
    | KeyError(key: string)
    | TypeError(msg: string)
    | AttributeError(msg: string)
    | ArgumentTypeError(msg: string)

  datatype Result<T> = Ok(value: T) | Err(error: Error)

  /** Python truthiness of an optional string (`if name:`): present and non-empty. */
  predicate Truthy(s: Option<string>)
  {
    s.Some? && s.value != ""
  }
}
