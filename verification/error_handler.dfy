/** Structured errors (lib/error-handler.ts): the error kinds, the record `create` builds,
    the named constructors with their defaults and status codes, and the user-facing
    message table. The `timestamp` (a clock read) and `isDev` (an environment flag) fields
    and the development-only logger are not modelled. */
module ErrorHandler {
  import opened Text
  import Constants

  /** `ErrorType`, with the string each member stands for. */
  datatype ErrorType =
    | Validation | Network | Api | Authentication | Permission | NotFound | Server | Unknown
  {
    function Code(): string
    {
      match this
      case Validation => "VALIDATION_ERROR"
      case Network => "NETWORK_ERROR"
      case Api => "API_ERROR"
      case Authentication => "AUTH_ERROR"
      case Permission => "PERMISSION_ERROR"
      case NotFound => "NOT_FOUND_ERROR"
      case Server => "SERVER_ERROR"
      case Unknown => "UNKNOWN_ERROR"
    }
  }

  /** `AppError` without its clock and environment fields; `context` is a string record. */
  datatype AppError = AppError(
    errorType: ErrorType,
    message: string,
    statusCode: Option<int>,
    context: Option<map<string, string>>)

  /** What `unknown` may be handed: an `Error` instance (with its message) or anything else. */
  datatype Thrown = ErrorInstance(message: string) | OtherValue

  /** `ErrorHandler.create`: the arguments are stored unchanged. */
  function Create(t: ErrorType, message: string, statusCode: Option<int>,
                  context: Option<map<string, string>>): (e: AppError)
    ensures e.errorType == t && e.message == message
    ensures e.statusCode == statusCode && e.context == context
  {
    AppError(t, message, statusCode, context)
  }

  /** `ErrorHandler.validation`: status 400; a context `{field}` only for a non-empty field
      (an empty string is falsy). */
  function ValidationError(message: string, field: Option<string>): (e: AppError)
    ensures e.errorType == Validation && e.message == message
    ensures e.statusCode == Some(Constants.HttpBadRequest)
    ensures e.context.Some? <==> field.Some? && field.value != ""
    ensures e.context.Some? ==> e.context.value == map["field" := field.value]
  {
    Create(Validation, message, Some(400),
      if field.Some? && field.value != "" then Some(map["field" := field.value]) else None)
  }

  /** `ErrorHandler.network`: `message || 'Network request failed'` and `statusCode || 0`. */
  function NetworkError(message: string, statusCode: Option<int>): (e: AppError)
    ensures e.errorType == Network && e.context.None?
    ensures e.message == (if message == "" then "Network request failed" else message)
    ensures e.statusCode == Some(if statusCode.None? then 0 else statusCode.value)
  {
    Create(Network, if message == "" then "Network request failed" else message,
      Some(if statusCode.None? || statusCode.value == 0 then 0 else statusCode.value), None)
  }

  /** `ErrorHandler.authentication`: the default applies only when no message is passed. */
  function AuthenticationError(message: Option<string>): (e: AppError)
    ensures e.errorType == Authentication && e.context.None?
    ensures e.statusCode == Some(Constants.HttpUnauthorized)
    ensures e.message == message.GetOr("Authentication failed")
  {
    Create(Authentication, message.GetOr("Authentication failed"), Some(401), None)
  }

  /** `ErrorHandler.permission`. */
  function PermissionError(message: Option<string>): (e: AppError)
    ensures e.errorType == Permission && e.context.None?
    ensures e.statusCode == Some(Constants.HttpForbidden)
    ensures e.message == message.GetOr("Permission denied")
  {
    Create(Permission, message.GetOr("Permission denied"), Some(403), None)
  }

  /** `ErrorHandler.notFound`: the message names the resource. */
  function NotFoundError(resource: Option<string>): (e: AppError)
    ensures e.errorType == NotFound && e.context.None?
    ensures e.statusCode == Some(Constants.HttpNotFound)
    ensures var name := resource.GetOr("Resource");
      |e.message| == |name| + 10 && e.message[..|name|] == name && e.message[|name|..] == " not found"
  {
    Create(NotFound, resource.GetOr("Resource") + " not found", Some(404), None)
  }

  /** `ErrorHandler.server`: both parameters have defaults. */
  function ServerError(message: Option<string>, statusCode: Option<int>): (e: AppError)
    ensures e.errorType == Server && e.context.None?
    ensures e.message == message.GetOr("Internal server error")
    ensures e.statusCode == Some(statusCode.GetOr(Constants.HttpInternalServerError))
  {
    Create(Server, message.GetOr("Internal server error"), Some(statusCode.GetOr(500)), None)
  }

  /** `ErrorHandler.unknown`: no status code. */
  function UnknownError(error: Thrown): (e: AppError)
    ensures e.errorType == Unknown && e.statusCode.None? && e.context.None?
    ensures error.ErrorInstance? ==> e.message == error.message
    ensures error.OtherValue? ==> e.message == "An unknown error occurred"
  {
    Create(Unknown, if error.ErrorInstance? then error.message else "An unknown error occurred", None, None)
  }

  /** The codes the constructors attach are the `HTTP_STATUS` constants of the same name. */
  lemma StatusCodesMatchHttp(message: string, field: Option<string>, m: Option<string>)
    ensures ValidationError(message, field).statusCode == Some(Constants.HttpBadRequest)
    ensures AuthenticationError(m).statusCode == Some(Constants.HttpUnauthorized)
    ensures PermissionError(m).statusCode == Some(Constants.HttpForbidden)
    ensures NotFoundError(m).statusCode == Some(Constants.HttpNotFound)
    ensures ServerError(m, None).statusCode == Some(Constants.HttpInternalServerError)
  {
  }

  /** The `messages` record of `getUserMessage`, one entry per kind. */
  function MessageTable(t: ErrorType): string
  {
    match t
    case Validation => "Please check your input and try again."
    case Network => "Network error. Please check your connection."
    case Api => "Something went wrong. Please try again later."
    case Authentication => "Please log in to continue."
    case Permission => "You do not have permission to access this."
    case NotFound => "The requested resource was not found."
    case Server => "Server error. Please try again later."
    case Unknown => "An unexpected error occurred."
  }

  /** The fallback of `getUserMessage`, used when the table entry is falsy. */
  const Fallback := "An error occurred. Please try again."

  /** `ErrorHandler.getUserMessage`: `messages[error.type] || fallback`. Every entry is
      non-empty, so the fallback is never taken. */
  function UserMessage(e: AppError): (r: string)
    ensures |r| > 0
    ensures r == MessageTable(e.errorType) && r != Fallback
  {
    var entry := MessageTable(e.errorType);
    if entry != "" then entry else Fallback
  }

  /** Two errors get the same user message exactly when they are of the same kind: the
      message depends on the kind alone, and no two kinds share a message. */
  lemma UserMessageByKind(e1: AppError, e2: AppError)
    ensures UserMessage(e1) == UserMessage(e2) <==> e1.errorType == e2.errorType
  {
    var t1, t2 := e1.errorType, e2.errorType;
    if t1 != t2 {
      MessageLength(t1);
      MessageLength(t2);
      if EntryLength(t1) == EntryLength(t2) {
        assert (t1 == NotFound && t2 == Server) || (t1 == Server && t2 == NotFound);
        NotFoundServerDiffer();
      }
      assert MessageTable(t1) != MessageTable(t2);
    }
  }

  /** The length of each table entry. Only the not-found and server entries share one. */
  function EntryLength(t: ErrorType): nat
  {
    match t
    case Validation => 38
    case Network => 44
    case Api => 45
    case Authentication => 26
    case Permission => 42
    case NotFound => 37
    case Server => 37
    case Unknown => 29
  }

  lemma MessageLength(t: ErrorType)
    ensures |MessageTable(t)| == EntryLength(t)
  {
  }

  lemma NotFoundServerDiffer()
    ensures MessageTable(NotFound) != MessageTable(Server)
  {
    var m1, m2 := MessageTable(NotFound), MessageTable(Server);
    assert m1[0] == 'T' && m2[0] == 'S';
  }

  /** The kind codes are pairwise distinct, so the string enum is a faithful encoding. */
  lemma CodesDistinct(t1: ErrorType, t2: ErrorType)
    ensures t1 != t2 ==> t1.Code() != t2.Code()
  {
    if t1 != t2 {
      assert |t1.Code()| != |t2.Code()| || t1.Code()[0] != t2.Code()[0];
    }
  }

  /** The kind a code string stands for, if any. */
  function FromCode(code: string): (r: Option<ErrorType>)
    ensures r.Some? ==> r.value.Code() == code
  {
    if code == "VALIDATION_ERROR" then Some(Validation)
    else if code == "NETWORK_ERROR" then Some(Network)
    else if code == "API_ERROR" then Some(Api)
    else if code == "AUTH_ERROR" then Some(Authentication)
    else if code == "PERMISSION_ERROR" then Some(Permission)
    else if code == "NOT_FOUND_ERROR" then Some(NotFound)
    else if code == "SERVER_ERROR" then Some(Server)
    else if code == "UNKNOWN_ERROR" then Some(Unknown)
    else None
  }

  /** Decoding a kind's code gives the kind back. */
  lemma CodeRoundTrip(t: ErrorType)
    ensures FromCode(t.Code()) == Some(t)
  {
    CodesDistinct(t, FromCode(t.Code()).GetOr(t));
  }

  /** Every constructor's error carries the kind its name says, and its user message is
      that kind's table entry. The constructors that supply a default when the message is
      falsy or absent never produce an empty message; the others store the message they
      are given, so an empty message stays empty. */
  lemma ConstructorMessages(message: string, field: Option<string>, status: Option<int>,
                            given: Option<string>, error: Thrown)
    ensures UserMessage(ValidationError(message, field)) == MessageTable(Validation)
    ensures UserMessage(NetworkError(message, status)) == MessageTable(Network)
    ensures UserMessage(AuthenticationError(given)) == MessageTable(Authentication)
    ensures UserMessage(PermissionError(given)) == MessageTable(Permission)
    ensures UserMessage(NotFoundError(given)) == MessageTable(NotFound)
    ensures UserMessage(ServerError(given, status)) == MessageTable(Server)
    ensures UserMessage(UnknownError(error)) == MessageTable(Unknown)
    ensures NetworkError(message, status).message != ""
    ensures NotFoundError(given).message != ""
    ensures error.OtherValue? ==> UnknownError(error).message != ""
    ensures given.None? ==>
      AuthenticationError(given).message != "" && PermissionError(given).message != "" &&
      ServerError(given, status).message != ""
    ensures ValidationError(message, field).message == message
    ensures given == Some("") ==> AuthenticationError(given).message == ""
  {
  }
}
