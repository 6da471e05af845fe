/**
 * `HTTPStatus` and its five category enums (the status codes of section 6 of
 * RFC 7231). Each category enum is a Swift `Int` raw-value enum whose last
 * case, `other`, has no explicit raw value and so gets the successor of the
 * case written before it.
 */
module HttpStatus {
  import opened Wrappers
  import opened Text

  datatype Informational = Continue | SwitchingProtocols | Processing | Other

  datatype Success =
    | Ok | Created | Accepted | NonAuthoritativeInformation | NoContent
    | ResetContent | PartialContent | MultiStatus | AlreadyReported | Other

  datatype Redirection =
    | MultipleChoices | MovedPermanently | Found | SeeOther | NotModified
    | UseProxy | SwitchProxy | TemporaryRedirect | PermanentRedirect | Other

  datatype ClientError =
    | BadRequest | Unauthorized | PaymentRequired | Forbidden | NotFound
    | MethodNotAllowed | NotAcceptable | ProxyAuthenticationRequired
    | RequestTimeout | Conflict | Gone | LengthRequired | PreconditionFailed
    | PayloadTooLarge | UriTooLong | UnsupportedMediaType | RangeNotSatisfiable
    | ExpectationFailed | ImaTeapot | MisdirectedRequest | UnprocessableEntity
    | Locked | FailedDependency | UpgradeRequired | PreconditionRequired
    | TooManyRequests | RequestHeaderFieldsTooLarge | UnavailableForLegalReasons
    | Other

  datatype ServerError =
    | InternalServerError | NotImplemented | BadGateway | ServiceUnavailable
    | GatewayTimeout | HttpVersionNotSupported | VariantAlsoNegotiates
    | InsufficientStorage | LoopDetected | NotExtented
    | NetworkAuthenticationRequired | LengthRequired | Other

  datatype HTTPStatus =
    | Informational(informational: Informational)
    | Success(success: Success)
    | Redirection(redirection: Redirection)
    | ClientError(clientError: ClientError)
    | ServerError(serverError: ServerError)
    | Unknown(code: Int64)

  // ---- raw values ------------------------------------------------------

  function InformationalRaw(x: Informational): int
  {
    match x
    case Continue => 100
    case SwitchingProtocols => 101
    case Processing => 102
    case Other => 103
  }

  function SuccessRaw(x: Success): int
  {
    match x
    case Ok => 200
    case Created => 201
    case Accepted => 202
    case NonAuthoritativeInformation => 203
    case NoContent => 204
    case ResetContent => 205
    case PartialContent => 206
    case MultiStatus => 207
    case AlreadyReported => 208
    case Other => 209
  }

  function RedirectionRaw(x: Redirection): int
  {
    match x
    case MultipleChoices => 300
    case MovedPermanently => 301
    case Found => 302
    case SeeOther => 303
    case NotModified => 304
    case UseProxy => 305
    case SwitchProxy => 306
    case TemporaryRedirect => 307
    case PermanentRedirect => 308
    case Other => 309
  }

  function ClientErrorRaw(x: ClientError): int
  {
    match x
    case BadRequest => 400
    case Unauthorized => 401
    case PaymentRequired => 402
    case Forbidden => 403
    case NotFound => 404
    case MethodNotAllowed => 405
    case NotAcceptable => 406
    case ProxyAuthenticationRequired => 407
    case RequestTimeout => 408
    case Conflict => 409
    case Gone => 410
    case LengthRequired => 411
    case PreconditionFailed => 412
    case PayloadTooLarge => 413
    case UriTooLong => 414
    case UnsupportedMediaType => 415
    case RangeNotSatisfiable => 416
    case ExpectationFailed => 417
    case ImaTeapot => 418
    case MisdirectedRequest => 419
    case UnprocessableEntity => 420
    case Locked => 423
    case FailedDependency => 424
    case UpgradeRequired => 425
    case PreconditionRequired => 426
    case TooManyRequests => 429
    case RequestHeaderFieldsTooLarge => 431
    case UnavailableForLegalReasons => 451
    case Other => 452
  }

  function ServerErrorRaw(x: ServerError): int
  {
    match x
    case InternalServerError => 500
    case NotImplemented => 501
    case BadGateway => 502
    case ServiceUnavailable => 503
    case GatewayTimeout => 504
    case HttpVersionNotSupported => 505
    case VariantAlsoNegotiates => 506
    case InsufficientStorage => 507
    case LoopDetected => 508
    case NotExtented => 509
    case NetworkAuthenticationRequired => 510
    case LengthRequired => 511
    case Other => 512
  }

  // ---- init?(rawValue:) of each category enum --------------------------

  function InformationalFromRaw(n: int): (r: Option<Informational>)
    ensures r.Some? ==> InformationalRaw(r.value) == n
    ensures forall x :: InformationalRaw(x) == n ==> r == Some(x)
  {
    if n == 100 then Some(Continue)
    else if n == 101 then Some(SwitchingProtocols)
    else if n == 102 then Some(Processing)
    else if n == 103 then Some(Informational.Other)
    else None
  }

  function SuccessFromRaw(n: int): (r: Option<Success>)
    ensures r.Some? ==> SuccessRaw(r.value) == n
    ensures forall x :: SuccessRaw(x) == n ==> r == Some(x)
  {
    if n == 200 then Some(Success.Ok)
    else if n == 201 then Some(Created)
    else if n == 202 then Some(Accepted)
    else if n == 203 then Some(NonAuthoritativeInformation)
    else if n == 204 then Some(NoContent)
    else if n == 205 then Some(ResetContent)
    else if n == 206 then Some(PartialContent)
    else if n == 207 then Some(MultiStatus)
    else if n == 208 then Some(AlreadyReported)
    else if n == 209 then Some(Success.Other)
    else None
  }

  function RedirectionFromRaw(n: int): (r: Option<Redirection>)
    ensures r.Some? ==> RedirectionRaw(r.value) == n
    ensures forall x :: RedirectionRaw(x) == n ==> r == Some(x)
  {
    if n == 300 then Some(MultipleChoices)
    else if n == 301 then Some(MovedPermanently)
    else if n == 302 then Some(Found)
    else if n == 303 then Some(SeeOther)
    else if n == 304 then Some(NotModified)
    else if n == 305 then Some(UseProxy)
    else if n == 306 then Some(SwitchProxy)
    else if n == 307 then Some(TemporaryRedirect)
    else if n == 308 then Some(PermanentRedirect)
    else if n == 309 then Some(Redirection.Other)
    else None
  }

  function ClientErrorFromRaw(n: int): (r: Option<ClientError>)
    ensures r.Some? ==> ClientErrorRaw(r.value) == n
    ensures forall x :: ClientErrorRaw(x) == n ==> r == Some(x)
  {
    if n == 400 then Some(BadRequest)
    else if n == 401 then Some(Unauthorized)
    else if n == 402 then Some(PaymentRequired)
    else if n == 403 then Some(Forbidden)
    else if n == 404 then Some(NotFound)
    else if n == 405 then Some(MethodNotAllowed)
    else if n == 406 then Some(NotAcceptable)
    else if n == 407 then Some(ProxyAuthenticationRequired)
    else if n == 408 then Some(RequestTimeout)
    else if n == 409 then Some(Conflict)
    else if n == 410 then Some(Gone)
    else if n == 411 then Some(ClientError.LengthRequired)
    else if n == 412 then Some(PreconditionFailed)
    else if n == 413 then Some(PayloadTooLarge)
    else if n == 414 then Some(UriTooLong)
    else if n == 415 then Some(UnsupportedMediaType)
    else if n == 416 then Some(RangeNotSatisfiable)
    else if n == 417 then Some(ExpectationFailed)
    else if n == 418 then Some(ImaTeapot)
    else if n == 419 then Some(MisdirectedRequest)
    else if n == 420 then Some(UnprocessableEntity)
    else if n == 423 then Some(Locked)
    else if n == 424 then Some(FailedDependency)
    else if n == 425 then Some(UpgradeRequired)
    else if n == 426 then Some(PreconditionRequired)
    else if n == 429 then Some(TooManyRequests)
    else if n == 431 then Some(RequestHeaderFieldsTooLarge)
    else if n == 451 then Some(UnavailableForLegalReasons)
    else if n == 452 then Some(ClientError.Other)
    else None
  }

  function ServerErrorFromRaw(n: int): (r: Option<ServerError>)
    ensures r.Some? ==> ServerErrorRaw(r.value) == n
    ensures forall x :: ServerErrorRaw(x) == n ==> r == Some(x)
  {
    if n == 500 then Some(InternalServerError)
    else if n == 501 then Some(NotImplemented)
    else if n == 502 then Some(BadGateway)
    else if n == 503 then Some(ServiceUnavailable)
    else if n == 504 then Some(GatewayTimeout)
    else if n == 505 then Some(HttpVersionNotSupported)
    else if n == 506 then Some(VariantAlsoNegotiates)
    else if n == 507 then Some(InsufficientStorage)
    else if n == 508 then Some(LoopDetected)
    else if n == 509 then Some(NotExtented)
    else if n == 510 then Some(NetworkAuthenticationRequired)
    else if n == 511 then Some(ServerError.LengthRequired)
    else if n == 512 then Some(ServerError.Other)
    else None
  }

  // ---- reason phrases --------------------------------------------------

  function InformationalDescription(x: Informational): string
  {
    match x
    case Continue => "Continue"
    case SwitchingProtocols => "Switching Protocol"
    case Processing => "Processing"
    case Other => "??"
  }

  function SuccessDescription(x: Success): string
  {
    match x
    case Ok => "OK"
    case Created => "Created"
    case Accepted => "Accepted"
    case NonAuthoritativeInformation => "Non Authoritative Information"
    case NoContent => "No Content"
    case ResetContent => "Reset Content"
    case PartialContent => "Partial Content"
    case MultiStatus => "Multi Status"
    case AlreadyReported => "Already Reported"
    case Other => "??"
  }

  function RedirectionDescription(x: Redirection): string
  {
    match x
    case MultipleChoices => "Multiple Choices "
    case MovedPermanently => "Moved Permanently"
    case Found => "Found"
    case SeeOther => "See Other"
    case NotModified => "Not Modified"
    case UseProxy => "Use Proxy"
    case SwitchProxy => "Switch Proxy"
    case TemporaryRedirect => "Temporary Redirect"
    case PermanentRedirect => "Permanent Redirect"
    case Other => "??"
  }

  function ClientErrorDescription(x: ClientError): string
  {
    match x
    case BadRequest => "Bad Request"
    case Unauthorized => "Unauthorized"
    case PaymentRequired => "Payment Required"
    case Forbidden => "Forbidden"
    case NotFound => "Not Found"
    case MethodNotAllowed => "Method Not Allowed"
    case NotAcceptable => "Not Acceptable"
    case ProxyAuthenticationRequired => "Proxy Authentication Required"
    case RequestTimeout => "Request Timeout"
    case Conflict => "Conflict"
    case Gone => "Gone"
    case LengthRequired => "Length Required"
    case PreconditionFailed => "Precondition Failed"
    case PayloadTooLarge => "Payload Too Large"
    case UriTooLong => "URI Too Long"
    case UnsupportedMediaType => "Unsupported Media Type"
    case RangeNotSatisfiable => "Range Not Satisfiable"
    case ExpectationFailed => "Expectation Failed"
    case ImaTeapot => "I am a Teapot~~~"
    case MisdirectedRequest => "Misdirected Request"
    case UnprocessableEntity => "Unprocessable Entity"
    case Locked => "Locked"
    case FailedDependency => "Failed Dependency"
    case UpgradeRequired => "Upgrade Required"
    case PreconditionRequired => "??"
    case TooManyRequests => "Too Many Requests"
    case RequestHeaderFieldsTooLarge => "RequestHeaderFieldTooLarge"
    case UnavailableForLegalReasons => "Unavailable For Legal Reasons"
    case Other => "??"
  }

  function ServerErrorDescription(x: ServerError): string
  {
    match x
    case InternalServerError => "Internal Server Error"
    case NotImplemented => "Not Implemented"
    case BadGateway => "Bad Gateway"
    case ServiceUnavailable => "Service Unavailable"
    case GatewayTimeout => "Gateway Timeout"
    case HttpVersionNotSupported => "Http Version Not Supported"
    case VariantAlsoNegotiates => "Variant Also Negotiates"
    case InsufficientStorage => "Insufficient Storage"
    case LoopDetected => "Loop Detected"
    case NotExtented => "Not Extented"
    case NetworkAuthenticationRequired => "Network Authentication Required"
    case LengthRequired => "Length Required"
    case Other => "??"
  }

  // ---- HTTPStatus ------------------------------------------------------

  /** `HTTPStatus.raw` */
  function Raw(s: HTTPStatus): Int64
  {
    match s
    case Informational(x) => InformationalRaw(x)
    case Success(x) => SuccessRaw(x)
    case Redirection(x) => RedirectionRaw(x)
    case ClientError(x) => ClientErrorRaw(x)
    case ServerError(x) => ServerErrorRaw(x)
    case Unknown(c) => c
  }

  /** `HTTPStatus.description` */
  function Description(s: HTTPStatus): string
  {
    match s
    case Informational(x) => InformationalDescription(x)
    case Success(x) => SuccessDescription(x)
    case Redirection(x) => RedirectionDescription(x)
    case ClientError(x) => ClientErrorDescription(x)
    case ServerError(x) => ServerErrorDescription(x)
    case Unknown(c) => IntToString(c)
  }

  /**
   * `HTTPStatus(raw:)`: the category by half-open range, then the category
   * enum's own `init?(rawValue:)`, with `.other` when that is nil.
   */
  function FromRaw(raw: Int64): (r: Option<HTTPStatus>)
    ensures r.Some?
    ensures 100 <= raw < 200 <==> r.value.Informational?
    ensures 200 <= raw < 300 <==> r.value.Success?
    ensures 300 <= raw < 400 <==> r.value.Redirection?
    ensures 400 <= raw < 500 <==> r.value.ClientError?
    ensures 500 <= raw < 600 <==> r.value.ServerError?
    ensures (raw < 100 || 600 <= raw) <==> r == Some(Unknown(raw))
  {
    if 100 <= raw < 200 then
      var info := InformationalFromRaw(raw);
      Some(Informational(if info == None then Informational.Other else info.value))
    else if 200 <= raw < 300 then
      var success := SuccessFromRaw(raw);
      Some(Success(if success == None then Success.Other else success.value))
    else if 300 <= raw < 400 then
      var redirect := RedirectionFromRaw(raw);
      Some(Redirection(if redirect == None then Redirection.Other else redirect.value))
    else if 400 <= raw < 500 then
      var client := ClientErrorFromRaw(raw);
      Some(ClientError(if client == None then ClientError.Other else client.value))
    else if 500 <= raw < 600 then
      var server := ServerErrorFromRaw(raw);
      Some(ServerError(if server == None then ServerError.Other else server.value))
    else Some(Unknown(raw))
  }

  /** A code some category enum lists (its `init?(rawValue:)` is not nil). */
  predicate Listed(c: int)
  {
    || (100 <= c < 200 && InformationalFromRaw(c).Some?)
    || (200 <= c < 300 && SuccessFromRaw(c).Some?)
    || (300 <= c < 400 && RedirectionFromRaw(c).Some?)
    || (400 <= c < 500 && ClientErrorFromRaw(c).Some?)
    || (500 <= c < 600 && ServerErrorFromRaw(c).Some?)
  }

  /** The raw value of the `other` case of the category that `c` falls in. */
  function OtherRaw(c: int): int
    requires 100 <= c < 600
  {
    if c < 200 then 103 else if c < 300 then 209 else if c < 400 then 309
    else if c < 500 then 452 else 512
  }

  /**
   * The code survives `HTTPStatus(raw: c)!.raw` exactly when it is listed or
   * outside 100..<600. An unlisted code in range becomes its category's
   * `other`, whose raw value is the implicit successor, and whose reason is
   * `"??"`.
   */
  lemma RawOfFromRaw(c: Int64)
    ensures Listed(c) || c < 100 || 600 <= c ==> Raw(FromRaw(c).value) == c
    ensures !Listed(c) && 100 <= c < 600 ==>
      Raw(FromRaw(c).value) == OtherRaw(c) && Description(FromRaw(c).value) == "??"
  {
  }

  /**
   * Which statuses survive `HTTPStatus(raw: s.raw)`: all but an `unknown`
   * whose code lies in 100..<600, which `init` never builds.
   */
  lemma FromRawOfRaw(s: HTTPStatus)
    ensures FromRaw(Raw(s)) == Some(s) <==> !(s.Unknown? && 100 <= s.code < 600)
  {
    match s
    case Informational(x) =>
    case Success(x) =>
    case Redirection(x) =>
    case ClientError(x) =>
    case ServerError(x) =>
    case Unknown(c) =>
  }

  /** `unknown(c)` reports `c` as its raw value and its decimal text as its reason. */
  lemma UnknownStatus(c: Int64)
    ensures Raw(Unknown(c)) == c && Description(Unknown(c)) == IntToString(c)
  {
  }

  lemma Examples()
    ensures Raw(FromRaw(404).value) == 404 && FromRaw(404) == Some(ClientError(NotFound))
    ensures Raw(FromRaw(150).value) == 103
    ensures FromRaw(103) == FromRaw(150)
    ensures Description(FromRaw(300).value) == "Multiple Choices "
    ensures Description(FromRaw(101).value) == "Switching Protocol"
    ensures FromRaw(600) == Some(Unknown(600)) && FromRaw(99) == Some(Unknown(99))
  {
  }
}
