/** Failure-carrying values shared by every module of the model.
    `Option` stands for a Java reference that may be null or an
    `Optional` that may be empty; `Result` stands for a call that either
    returns a value or throws a `RuntimeException` carrying a message. */
module Wrappers {

  datatype Option<T> = None | Some(value: T) {

    /** The value, or `default` when absent (`Optional.orElse`, SQL `COALESCE`). */
    function GetOr(default: T): T {
      match this
      case Some(v) => v
      case None => default
    }
  }

  /** `Err(message)` is a thrown `RuntimeException` whose `getMessage()` is `message`. */
  datatype Result<T> = Ok(value: T) | Err(message: string)
}
