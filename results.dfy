/** Optional values and error results shared by the board model and the level converter. */
module Results {

  datatype Option<+T> = None | Some(value: T)

  /** The outcome of an operation that the source may abort with an exception. */
  datatype Result<+T> = Ok(value: T) | Err
}
