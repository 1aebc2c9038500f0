/** Failure-compatible wrappers shared by the whole model: a nullable value and
    the outcome of an operation that can be refused with a message. */
module Common {

  /** A value that may be absent (a null C value or an unread property). */
  datatype Option<T> = None | Some(value: T)

  /** Either a value or the text of the error raised instead. */
  datatype Result<T> = Ok(value: T) | Err(message: string)
}
