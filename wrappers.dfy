/** Optional values and results with an error, as the tracker's endpoints return them. */
module Wrappers {

  /** A value that may be absent: Python's `None`, SQL's NULL. */
  datatype Option<+T> = None | Some(value: T)

  /** The outcome of an endpoint: a value, or the error it raises. */
  datatype Result<+T, +E> = Ok(value: T) | Err(error: E)
}

/** The errors the HTTP endpoints raise, with the `detail` text the client receives. */
module Http {

  datatype ApiError =
    | NotFound(detail: string)    // HTTP 404
    | BadRequest(detail: string)  // HTTP 400
}
