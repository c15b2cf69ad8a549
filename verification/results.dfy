/** Failure-carrying values shared by the registry and the poller. The
    program aborts the process on every startup error; the model returns
    the error instead, naming the input that caused it. */
module Results {

  datatype Option<+T> = None | Some(value: T)

  /** Why startup was abandoned. */
  datatype Error =
    | BadPattern(pattern: string)   // the glob pattern of a group is malformed
    | StatError(path: string)       // a file matched at startup could not be stat'ed
    | BadDuration(setting: string)  // the `sleep` setting does not parse as a duration

  datatype Result<+T> = Ok(value: T) | Err(error: Error)
}
