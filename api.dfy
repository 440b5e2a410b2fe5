/**
 * What a handler receives and what it answers, with the transport taken
 * away: the Authorization header, the decoded body, and one outcome per
 * status code the handlers write (utils.go:24-45).
 */
module Api {

  /**
   * Ok is 200, NotFound 404, UserError 400 (with the message the handler
   * sends back), ServerError 500 and AuthError 401.
   */
  datatype Outcome<+T> = Ok(value: T) | NotFound | UserError(message: string) | ServerError | AuthError

  /** A request body either failed to decode as JSON or decoded to a value. */
  datatype Body<+T> = Malformed | Parsed(value: T)

  /** `authorization` is the Authorization header; an absent header reads as "". */
  datatype Request<+T> = Request(authorization: string, body: Body<T>)

  /**
   * Which store calls of one request report an error other than "record not
   * found": the user lookup of auth, the handler's read, and its write.
   */
  datatype Faults = Faults(auth: bool, read: bool, write: bool)

  const NoFaults: Faults := Faults(false, false, false)

  /** The message of APIUserError when the body is not JSON (kv.go:48, kv.go:85). */
  const ParseErrorMessage: string := "error parsing JSON"
}
