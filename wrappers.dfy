/** Small value wrappers shared by the note engine: an optional value (the
    source's `T | null`), the outcome of a remote call, and a result that
    carries an error message. */
module Wrappers {

  /** `T | null` in the source. */
  datatype Option<T> = None | Some(value: T) {
    function GetOr(default: T): T {
      match this
      case Some(v) => v
      case None => default
    }
  }

  /** What a remote call (`fetch` followed by `response.json()`) produced:
      either the decoded body of an ok response, or a failure of any kind
      (a rejected promise, a non-ok status). */
  datatype Response<T> = Ok(body: T) | Failed

  /** A returned value, or the message of a thrown error. */
  datatype Result<+T> = Returned(value: T) | Thrown(error: string)
}
