/** Small shared vocabulary: optional values, outcomes with a failure reason, bytes. */
module Base {

  /** A value that may be missing (Kotlin's nullable `T?`). */
  datatype Option<T> = None | Some(value: T) {
    /** Kotlin's elvis operator: `this ?: default`. */
    function GetOr(default: T): T
    {
      if Some? then value else default
    }
  }

  /** An operation that either produced a value or threw; `reason` is the exception message. */
  datatype Result<T> = Ok(value: T) | Err(reason: string)

  /** A JVM byte, taken unsigned. */
  type byte = b: int | 0 <= b < 256
}
