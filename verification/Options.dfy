module Options {
  /** A value that may be missing: `null` and `undefined` on one side, `Option` on the other. */
  datatype Option<+T> = None | Some(value: T)

  /** A value, or the error there is one for. */
  datatype Result<+T, +E> = Ok(value: T) | Err(error: E)
}
