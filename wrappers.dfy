/** Optional values (typed nulls) and evaluation results that may fail with a message. */
module Wrappers {

  /** A value, or the typed null the library returns for an out-of-domain input. */
  datatype Option<+T> = None | Some(value: T)

  /** A value, or the evaluation error the library throws, with its message. */
  datatype Result<+T> = Ok(value: T) | Err(message: string)
}
