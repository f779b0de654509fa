/** Optional values and the outcome of an operation that may throw. */
module Wrappers {

  /** A reference that may be null (`Path?`, a null `Stack<Point>`). */
  datatype Option<+T> = None | Some(value: T)

  /** The .NET exceptions the modelled code can raise. */
  datatype Exception =
    | Argument            // a Bitmap of a width or height that is not positive
    | ArgumentOutOfRange  // Bitmap.GetPixel outside the bitmap
    | KeyNotFound         // a Dictionary lookup of a missing key

  /** The result of a call: a value, or the exception it threw. */
  datatype Result<+T> = Ok(value: T) | Throw(error: Exception)
}
