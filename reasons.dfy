/**
 * No reason phrase of the status catalog holds a CR, so a status line is one
 * line of text. Each numbered lemma covers one group of an enum's cases, in
 * declaration order, and the lemma named after the enum combines its groups.
 */
module ReasonPhrases {
  import opened Text
  import opened HttpStatus

  lemma InformationalNoCR(x: Informational)
    ensures '\r' !in InformationalDescription(x)
  {
  }

  lemma SuccessNoCR1(x: Success)
    requires x.Ok? || x.Created? || x.Accepted? || x.NonAuthoritativeInformation? || x.NoContent? || x.ResetContent?
    ensures '\r' !in SuccessDescription(x)
  {
  }

  lemma SuccessNoCR2(x: Success)
    requires x.PartialContent? || x.MultiStatus? || x.AlreadyReported? || x.Other?
    ensures '\r' !in SuccessDescription(x)
  {
  }

  /** No Success reason phrase holds a CR, group by group. */
  lemma SuccessNoCR(x: Success)
    ensures '\r' !in SuccessDescription(x)
  {
    if x.Ok? || x.Created? || x.Accepted? || x.NonAuthoritativeInformation? || x.NoContent? || x.ResetContent? {
      SuccessNoCR1(x);
    } else {
      SuccessNoCR2(x);
    }
  }

  lemma RedirectionNoCR1(x: Redirection)
    requires x.MultipleChoices? || x.MovedPermanently? || x.Found? || x.SeeOther? || x.NotModified? || x.UseProxy? || x.SwitchProxy? || x.TemporaryRedirect?
    ensures '\r' !in RedirectionDescription(x)
  {
  }

  lemma RedirectionNoCR2(x: Redirection)
    requires x.PermanentRedirect? || x.Other?
    ensures '\r' !in RedirectionDescription(x)
  {
  }

  /** No Redirection reason phrase holds a CR, group by group. */
  lemma RedirectionNoCR(x: Redirection)
    ensures '\r' !in RedirectionDescription(x)
  {
    if x.MultipleChoices? || x.MovedPermanently? || x.Found? || x.SeeOther? || x.NotModified? || x.UseProxy? || x.SwitchProxy? || x.TemporaryRedirect? {
      RedirectionNoCR1(x);
    } else {
      RedirectionNoCR2(x);
    }
  }

  lemma ClientErrorNoCR1(x: ClientError)
    requires x.BadRequest? || x.Unauthorized? || x.PaymentRequired? || x.Forbidden? || x.NotFound?
    ensures '\r' !in ClientErrorDescription(x)
  {
  }

  lemma ClientErrorNoCR2(x: ClientError)
    requires x.MethodNotAllowed? || x.NotAcceptable?
    ensures '\r' !in ClientErrorDescription(x)
  {
  }

  lemma ClientErrorNoCR3(x: ClientError)
    requires x.ProxyAuthenticationRequired?
    ensures '\r' !in ClientErrorDescription(x)
  {
  }

  lemma ClientErrorNoCR4(x: ClientError)
    requires x.RequestTimeout? || x.Conflict? || x.Gone?
    ensures '\r' !in ClientErrorDescription(x)
  {
  }

  lemma ClientErrorNoCR5(x: ClientError)
    requires x.LengthRequired? || x.PreconditionFailed?
    ensures '\r' !in ClientErrorDescription(x)
  {
  }

  lemma ClientErrorNoCR6(x: ClientError)
    requires x.PayloadTooLarge? || x.UriTooLong?
    ensures '\r' !in ClientErrorDescription(x)
  {
  }

  lemma ClientErrorNoCR7(x: ClientError)
    requires x.UnsupportedMediaType?
    ensures '\r' !in ClientErrorDescription(x)
  {
  }

  lemma ClientErrorNoCR8(x: ClientError)
    requires x.RangeNotSatisfiable?
    ensures '\r' !in ClientErrorDescription(x)
  {
  }

  lemma ClientErrorNoCR9(x: ClientError)
    requires x.ExpectationFailed? || x.ImaTeapot?
    ensures '\r' !in ClientErrorDescription(x)
  {
  }

  lemma ClientErrorNoCR10(x: ClientError)
    requires x.MisdirectedRequest?
    ensures '\r' !in ClientErrorDescription(x)
  {
  }

  lemma ClientErrorNoCR11(x: ClientError)
    requires x.UnprocessableEntity?
    ensures '\r' !in ClientErrorDescription(x)
  {
  }

  lemma ClientErrorNoCR12(x: ClientError)
    requires x.Locked?
    ensures '\r' !in ClientErrorDescription(x)
  {
  }

  lemma ClientErrorNoCR13(x: ClientError)
    requires x.FailedDependency?
    ensures '\r' !in ClientErrorDescription(x)
  {
  }

  lemma ClientErrorNoCR14(x: ClientError)
    requires x.UpgradeRequired? || x.PreconditionRequired?
    ensures '\r' !in ClientErrorDescription(x)
  {
  }

  lemma ClientErrorNoCR15(x: ClientError)
    requires x.TooManyRequests?
    ensures '\r' !in ClientErrorDescription(x)
  {
  }

  lemma ClientErrorNoCR16(x: ClientError)
    requires x.RequestHeaderFieldsTooLarge?
    ensures '\r' !in ClientErrorDescription(x)
  {
  }

  lemma ClientErrorNoCR17(x: ClientError)
    requires x.UnavailableForLegalReasons?
    ensures '\r' !in ClientErrorDescription(x)
  {
  }

  lemma ClientErrorNoCR18(x: ClientError)
    requires x.Other?
    ensures '\r' !in ClientErrorDescription(x)
  {
  }

  /** No ClientError reason phrase holds a CR, group by group. */
  lemma ClientErrorNoCR(x: ClientError)
    ensures '\r' !in ClientErrorDescription(x)
  {
    if x.BadRequest? || x.Unauthorized? || x.PaymentRequired? || x.Forbidden? || x.NotFound? {
      ClientErrorNoCR1(x);
    } else if x.MethodNotAllowed? || x.NotAcceptable? {
      ClientErrorNoCR2(x);
    } else if x.ProxyAuthenticationRequired? {
      ClientErrorNoCR3(x);
    } else if x.RequestTimeout? || x.Conflict? || x.Gone? {
      ClientErrorNoCR4(x);
    } else if x.LengthRequired? || x.PreconditionFailed? {
      ClientErrorNoCR5(x);
    } else if x.PayloadTooLarge? || x.UriTooLong? {
      ClientErrorNoCR6(x);
    } else if x.UnsupportedMediaType? {
      ClientErrorNoCR7(x);
    } else if x.RangeNotSatisfiable? {
      ClientErrorNoCR8(x);
    } else if x.ExpectationFailed? || x.ImaTeapot? {
      ClientErrorNoCR9(x);
    } else if x.MisdirectedRequest? {
      ClientErrorNoCR10(x);
    } else if x.UnprocessableEntity? {
      ClientErrorNoCR11(x);
    } else if x.Locked? {
      ClientErrorNoCR12(x);
    } else if x.FailedDependency? {
      ClientErrorNoCR13(x);
    } else if x.UpgradeRequired? || x.PreconditionRequired? {
      ClientErrorNoCR14(x);
    } else if x.TooManyRequests? {
      ClientErrorNoCR15(x);
    } else if x.RequestHeaderFieldsTooLarge? {
      ClientErrorNoCR16(x);
    } else if x.UnavailableForLegalReasons? {
      ClientErrorNoCR17(x);
    } else {
      ClientErrorNoCR18(x);
    }
  }

  lemma ServerErrorNoCR1(x: ServerError)
    requires x.InternalServerError? || x.NotImplemented? || x.BadGateway? || x.ServiceUnavailable? || x.GatewayTimeout?
    ensures '\r' !in ServerErrorDescription(x)
  {
  }

  lemma ServerErrorNoCR2(x: ServerError)
    requires x.HttpVersionNotSupported? || x.VariantAlsoNegotiates? || x.InsufficientStorage?
    ensures '\r' !in ServerErrorDescription(x)
  {
  }

  lemma ServerErrorNoCR3(x: ServerError)
    requires x.LoopDetected? || x.NotExtented? || x.NetworkAuthenticationRequired?
    ensures '\r' !in ServerErrorDescription(x)
  {
  }

  lemma ServerErrorNoCR4(x: ServerError)
    requires x.LengthRequired? || x.Other?
    ensures '\r' !in ServerErrorDescription(x)
  {
  }

  /** No ServerError reason phrase holds a CR, group by group. */
  lemma ServerErrorNoCR(x: ServerError)
    ensures '\r' !in ServerErrorDescription(x)
  {
    if x.InternalServerError? || x.NotImplemented? || x.BadGateway? || x.ServiceUnavailable? || x.GatewayTimeout? {
      ServerErrorNoCR1(x);
    } else if x.HttpVersionNotSupported? || x.VariantAlsoNegotiates? || x.InsufficientStorage? {
      ServerErrorNoCR2(x);
    } else if x.LoopDetected? || x.NotExtented? || x.NetworkAuthenticationRequired? {
      ServerErrorNoCR3(x);
    } else {
      ServerErrorNoCR4(x);
    }
  }

  /** No reason phrase holds a CR, so a status line is a single line of text. */
  lemma DescriptionNoCR(s: HTTPStatus)
    ensures '\r' !in Description(s)
  {
    match s
    case Informational(x) => InformationalNoCR(x);
    case Success(x) => SuccessNoCR(x);
    case Redirection(x) => RedirectionNoCR(x);
    case ClientError(x) => ClientErrorNoCR(x);
    case ServerError(x) => ServerErrorNoCR(x);
    case Unknown(c) => IntToStringPlain(c);
  }
}
