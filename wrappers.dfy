/** Failure-carrying and file-state values shared by every module of the model. */
module Wrappers {

  datatype Option<+T> = None | Some(value: T)

  /** A Python call either returns a value or raises an exception (named by `kind`). */
  datatype Result<+T> = Ok(value: T) | Raised(kind: string)

  /**
   * What reading one file yields: it is absent, reading or decoding it failed
   * (with the exception's message), or it was read and decoded into `content`.
   */
  datatype FileState<+T> = Missing | Unreadable(message: string) | Loaded(content: T)
}
