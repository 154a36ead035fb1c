/** The two wrappers the adapter model uses: Option for a value that may be
    absent (a failed regex match, a map or list lookup that finds nothing),
    Result for an operation that returns a value or throws. */
module Results {

  datatype Option<+T> = None | Some(value: T)

  datatype Result<+T, +E> = Ok(value: T) | Err(error: E)
}
