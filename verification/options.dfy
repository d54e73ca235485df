/** C#'s nullable values (`bool?`, `DateTimeOffset?`). */
module Options {

  /** `None` is a null value; `Some(v)` is a value with `HasValue` set. */
  datatype Option<T> = None | Some(value: T)
}
