/** Optional values and the two shapes of a call that may throw. */
module Wrappers {

  /** A Java reference that may be null. */
  datatype Option<+T> = None | Some(value: T) {
    /** `Optional.orElse`. */
    function GetOr(default: T): T {
      match this
      case Some(v) => v
      case None => default
    }
  }

  /** A call that returns a value or throws an exception with the given message. */
  datatype Result<+T> = Ok(value: T) | Err(error: string)

  /** A `void` call that returns normally or throws an exception with the given message. */
  datatype Outcome = Pass | Fail(error: string)

  /** Message used where the Java code dereferences null (the JVM's own text is not modelled). */
  const NullPointer := "NullPointerException"
}
