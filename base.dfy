/** Values shared by the whole model: Java's `int`, null-or-value, and the failures
    the registry reports. */
module Base {

  /** Java's 32-bit `int`. */
  newtype int32 = x: int | -0x8000_0000 <= x < 0x8000_0000

  /** A value or Java's `null`. */
  datatype Option<+T> = None | Some(value: T)

  /** The conditions under which the registry throws instead of returning. */
  datatype Error =
    | NotLoggedIn   // "User is not logged in." (IllegalArgumentException)
    | FileNotFound  // a load whose record file does not exist (IllegalArgumentException)
    | NoFileName    // a save before any file name is set: the writer gets null (NullPointerException)

  /** The normal return value of an operation, or the exception it throws instead. */
  datatype Result<+T> = Ok(value: T) | Err(error: Error)
}
