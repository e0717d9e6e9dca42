/** The optional values and fallible results the engine returns. */
module Options {
  datatype Option<+T> = None | Some(value: T)

  datatype Result<+T> = Failure | Success(value: T)
}
