/**
 * The exceptions the modelled code throws, the Outcome of a call that may throw, and
 * GlobalExceptionHandler (exception/GlobalExceptionHandler.java), which turns an escaped
 * exception into an HTTP response.
 */
module Exceptions {
  import opened Http

  /**
   * The application's five exception classes, followed by the framework and runtime
   * exceptions that the modelled code lets escape.
   */
  datatype AppException =
    | ResourceNotFoundException(message: string)
    | InvalidCredentialsException(message: string)
    | UserAlreadyExistsException(message: string)
    | VideoAlreadyPresentException(message: string)
    | VideoNotFoundException(message: string)
    // AuthenticationManager.authenticate rejects the credentials
    | BadCredentialsException
    // Optional.orElseThrow in loginUser
    | IllegalArgumentException(message: string)
    // UserDetailsServiceImpl.loadUserByUsername finds no user
    | UsernameNotFoundException(message: string)
    // the token library refuses to parse a token
    | JwtException
    // a null entity reference is dereferenced
    | NullPointerException
    // a database unique constraint rejects a write
    | DataIntegrityViolationException
  {
    /** Throwable.getMessage(); the exceptions without a message of their own give "". */
    function Message(): string {
      match this
      case ResourceNotFoundException(m) => m
      case InvalidCredentialsException(m) => m
      case UserAlreadyExistsException(m) => m
      case VideoAlreadyPresentException(m) => m
      case VideoNotFoundException(m) => m
      case IllegalArgumentException(m) => m
      case UsernameNotFoundException(m) => m
      case _ => ""
    }
  }

  /** The result of a Java call: a returned value or an exception that escapes it. */
  datatype Outcome<+T> = Returned(value: T) | Thrown(exception: AppException)

  /** The handler table: which status each exception class is answered with. */
  function HandlerStatus(e: AppException): (s: HttpStatus)
    ensures s == NotFound <==> e.ResourceNotFoundException? || e.VideoNotFoundException?
    ensures s == Unauthorized <==> e.InvalidCredentialsException?
    ensures s == Conflict <==> e.UserAlreadyExistsException? || e.VideoAlreadyPresentException?
    ensures s == InternalServerError <==>
              !(e.ResourceNotFoundException? || e.VideoNotFoundException? || e.InvalidCredentialsException?
                || e.UserAlreadyExistsException? || e.VideoAlreadyPresentException?)
  {
    match e
    case ResourceNotFoundException(_) => NotFound
    case VideoNotFoundException(_) => NotFound
    case InvalidCredentialsException(_) => Unauthorized
    case UserAlreadyExistsException(_) => Conflict
    case VideoAlreadyPresentException(_) => Conflict
    case _ => InternalServerError
  }

  /** A value in the handler's response body. */
  datatype BodyValue = Timestamp(at: int) | Number(n: int) | Text(s: string)

  /** ResponseEntity<Object>: a status and the LinkedHashMap body, as its entries in insertion order. */
  datatype ResponseEntity = ResponseEntity(status: HttpStatus, body: seq<(string, BodyValue)>)

  function Keys(body: seq<(string, BodyValue)>): seq<string> {
    seq(|body|, i requires 0 <= i < |body| => body[i].0)
  }

  /**
   * buildResponseEntity: the body holds timestamp, numeric status, reason phrase and
   * message, in that order, and the entity's status is the status given.
   */
  function BuildResponseEntity(status: HttpStatus, message: string, now: int): (r: ResponseEntity)
    ensures r.status == status && |r.body| == 4
    ensures Keys(r.body) == ["timestamp", "status", "error", "message"]
    ensures r.body[0].1 == Timestamp(now)
    ensures r.body[1].1 == Number(r.status.Value())
    ensures r.body[2].1 == Text(r.status.ReasonPhrase())
    ensures r.body[3].1 == Text(message)
  {
    ResponseEntity(status, [("timestamp", Timestamp(now)), ("status", Number(status.Value())),
                            ("error", Text(status.ReasonPhrase())), ("message", Text(message))])
  }

  /** The handler Spring selects for `e`, applied at wall-clock time `now`. */
  function HandleException(e: AppException, now: int): (r: ResponseEntity)
    ensures r.status == HandlerStatus(e) && |r.body| == 4
    ensures r.body[1].1 == Number(HandlerStatus(e).Value())
    ensures r.body[3].1 == Text(e.Message())
  {
    BuildResponseEntity(HandlerStatus(e), e.Message(), now)
  }
}
