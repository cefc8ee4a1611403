/** Optional values and the responses of the API layer. */
module Outcomes {

  datatype Option<+T> = None | Some(value: T)

  /**
   * An error response: its HTTP status code and the `error` text of its JSON
   * body. The one exception is `FileTypeNotAllowed`, which has no JSON body.
   */
  datatype Failure = Failure(status: int, message: string)

  /** A route's answer: the body of a successful response, or an error response. */
  datatype Result<+T> = Ok(value: T) | Err(failure: Failure)

  // The error responses the server produces, with their status codes.
  const TokenRequired := Failure(401, "Access token required")
  const InvalidToken := Failure(403, "Invalid token")
  const InvalidCredentials := Failure(401, "Invalid credentials")
  const AccessDenied := Failure(403, "Access denied")
  const TitleRequired := Failure(400, "Title is required")
  const AlreadyMarked := Failure(400, "Attendance already marked for today")
  const DatabaseError := Failure(500, "Database error")
  /**
   * The upload filter's error. It goes to the framework's default error
   * handler, which answers with status 500 and its own error page, not a JSON
   * body. The message is the error's own text, and that page carries it only
   * outside production mode.
   */
  const FileTypeNotAllowed := Failure(500, "File type not allowed")
}
