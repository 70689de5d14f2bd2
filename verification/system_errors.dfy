/** The framework's error values (`SystemErr` with a `SystemErrCode`, or
    any other thrown error) and the table that turns a system error into
    a response (src/SystemErrRecord.ts). */
module SystemErrors {
  import opened Wrappers
  import opened Text

  datatype ErrCode =
    | FileNotFound
    | BodyParsingFailed
    | RouteAlreadyRegistered
    | RouteNotFound
    | InternalServerErr
    | WebsocketUpgradeFailure
    | HeadersAlreadySent
    | MiddlewareError
    | ValidationFailed

  /** What a framework operation throws: a `SystemErr` or a plain `Error`. */
  datatype Failure = SystemErr(code: ErrCode, message: string) | PlainError(message: string)

  /** What an entry of the table does to the (freshly cleared) response. */
  datatype ErrAction = Respond(status: nat, body: string) | LeaveUntouched

  /** The table's entry for a code, or `None` where the table has none. */
  function RecordEntry(code: ErrCode, message: string): (a: Option<ErrAction>)
    ensures a.None? <==> code in {MiddlewareError, ValidationFailed}
    ensures a == Some(LeaveUntouched) <==> code == HeadersAlreadySent
    ensures a.Some? && a.value.Respond? ==> 400 <= a.value.status < 600 && EndsWith(a.value.body, message)
    ensures a.Some? && a.value.Respond? ==>
      (a.value.status < 500 <==> code in {FileNotFound, BodyParsingFailed, RouteAlreadyRegistered, RouteNotFound})
    ensures a.Some? && a.value.Respond? && code != InternalServerErr ==> a.value.body == message
  {
    match code
    case FileNotFound => Some(Respond(404, message))
    case BodyParsingFailed => Some(Respond(400, message))
    case RouteAlreadyRegistered => Some(Respond(409, message))
    case RouteNotFound => Some(Respond(404, message))
    case InternalServerErr => Some(Respond(500, "Internal Server Error\n\n" + message))
    case WebsocketUpgradeFailure => Some(Respond(500, message))
    case HeadersAlreadySent => Some(LeaveUntouched)
    case MiddlewareError => None
    case ValidationFailed => None
  }

  /** Missing files and missing routes both answer 404, a body that cannot
      be parsed 400, a duplicate registration 409, and an internal error
      500 with its message after a fixed heading. */
  lemma RecordStatuses(message: string)
    ensures RecordEntry(FileNotFound, message) == RecordEntry(RouteNotFound, message) == Some(Respond(404, message))
    ensures RecordEntry(BodyParsingFailed, message) == Some(Respond(400, message))
    ensures RecordEntry(RouteAlreadyRegistered, message) == Some(Respond(409, message))
    ensures RecordEntry(InternalServerErr, message) == Some(Respond(500, "Internal Server Error\n\n" + message))
    ensures RecordEntry(WebsocketUpgradeFailure, message) == Some(Respond(500, message))
  {
  }
}
