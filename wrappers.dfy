/** Option and Result: an optional value and the outcome of an operation that can fail. */
module Wrappers {

  /** A value that may be absent (a nullable field, an optional request field). */
  datatype Option<+T> = None | Some(value: T) {

    /** The wrapped value, or `default` when absent (JavaScript's `x || default`). */
    function GetOr(default: T): T {
      match this
      case Some(v) => v
      case None => default
    }
  }

  /** The outcome of an operation that can throw. */
  datatype Result<+R, +E> = Success(value: R) | Failure(error: E)
}

/** The errors the core raises. */
module Errors {

  datatype Error =
    /** NotFoundException raised by a service: the session does not exist. */
    | NotFound(sessionId: string)
    /** The plain Error the session repository throws when an update matched no session. */
    | StoreNotFound(sessionId: string)
}
