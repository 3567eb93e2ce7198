/** Values shared by every part of the model. */
module Support {

  /** A value that may be absent; PHP's `null` or `false` return. */
  datatype Option<T> = None | Some(value: T)

  /** A value, or the message that explains why there is none (a `false` return with a by-reference `$error`). */
  datatype Result<T> = Ok(value: T) | Err(error: string)

  /** What a finished external command reports: whether it exited successfully, and what it wrote. */
  datatype ProcessResult = ProcessResult(successful: bool, stdout: string, stderr: string)
}
