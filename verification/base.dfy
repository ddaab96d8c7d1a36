/** Values shared by every part of the employee service: optional values,
    the outcome of an operation that may fail, and the kinds of failure the
    resolvers and guards raise. */
module Base {

  /** A value that may be absent (`undefined` / `null` in the service). */
  datatype Option<T> = None | Some(value: T) {
    function GetOr(default: T): T {
      match this
      case Some(v) => v
      case None => default
    }
  }

  /** The kinds of error the service raises. Each one stands for the message
      the resolvers throw; the "Failed to ...: " prefixes are not modelled. */
  datatype ApiError =
    | AuthenticationRequired   // "Authentication required"
    | AdminRequired            // "Admin access required"
    | Unauthorized             // "Unauthorized to update/delete this employee"
    | NotFound                 // "Employee not found"
    | DuplicateEmail           // "Employee with this email already exists"
    | ValidationFailed         // a schema validator rejected the record
    | InvalidCredentials       // "Invalid credentials"

  /** Either the operation's value or the error it threw. */
  datatype Result<T> = Success(value: T) | Failure(error: ApiError)
}
