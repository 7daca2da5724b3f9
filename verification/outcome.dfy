/** Results of the API's handlers: either a value, or the HTTP error the handler
    (or the framework's request validation in front of it) answers with. */
module Outcome {

  /** An optional argument or field: Python's `None` or a value. */
  datatype Option<+T> = None | Some(value: T)

  /** The errors a request can end in.
      - NotFound: `find_student` found no record with the id (HTTP 404).
      - AlreadyExists: `add_student` was given an id already in use (HTTP 400).
      - Unprocessable: a body field or query parameter is outside its declared
        bounds, so the framework rejects the request before the handler runs (HTTP 422). */
  datatype ApiError = NotFound(id: int) | AlreadyExists(id: int) | Unprocessable

  datatype Result<+T> = Ok(value: T) | Err(error: ApiError)
}
