/** Result values shared by every module of the booking service model. */
module Outcomes {

  /** An optional value, e.g. a Python argument that defaults to `None`. */
  datatype Option<+T> = None | Some(value: T)

  /** What an HTTP handler produces: its value, or the `HTTPException` it raises
      (status code and detail message). */
  datatype Response<+T> = Ok(value: T) | Err(status: int, detail: string)
}
