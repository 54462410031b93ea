/** Option and Result wrappers shared by every part of the model. */
module Results {

  /** A value that may be absent. */
  datatype Option<+T> = None | Some(value: T)

  /** The outcome of a step that can fail the way the modelled program fails
      (an uncaught exception, for instance). */
  datatype Result<+T> = Ok(value: T) | Err(error: string)
}
