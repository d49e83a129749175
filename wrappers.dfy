/** Option and the error outcomes of the HTTP handlers, as values instead of exceptions. */
module Wrappers {

  datatype Option<+T> = None | Some(value: T)

  /** The HTTP errors the handlers raise. */
  datatype HttpError =
    | NotFound       // 404: missing movie, or an empty page
    | Conflict       // 409: a movie with the same name and release date exists
    | BadRequest     // 400: the commit of a patch failed
    | Unprocessable  // 422: the framework rejected a query parameter, path parameter or body

  datatype Result<+T> = Ok(value: T) | Err(error: HttpError)
}
