/** Optional values and the one exceptional outcome the bridge can reach:
    a Java `null` becomes `None`, and dereferencing one becomes
    `NullDereference` instead of a crash. */
module Wrappers {

  /** A value that may be absent (a Java reference that may be `null`). */
  datatype Option<+T> = None | Some(value: T)

  /** The outcome of a call that either returns or throws a
      `NullPointerException`. */
  datatype Result<+T> = Ok(value: T) | NullDereference
}
