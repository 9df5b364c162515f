/** Small value types shared by the session resolver and the configuration helpers. */
module Common {

  /** An optional value, used where the source has `None` or a possibly-missing result. */
  datatype Option<+T> = None | Some(value: T)

  /** The result of a piece of Python code that either returns a value or raises.
      `Raised` carries the name of the exception class that escapes. */
  datatype Outcome<+T> = Value(value: T) | Raised(exception: string)
}
