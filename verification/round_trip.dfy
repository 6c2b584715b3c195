/**
 The signup-verification page talking to the server: how a server response
 reaches the page, and what the page then shows.
 */
module VerifyRoundTrip {
  import opened Common
  import opened Models
  import opened Schemas
  import opened Wire
  import opened FormValidation
  import Endpoints
  import VerifyOtpFlow

  /** How the client library hands a server response to the page. A 2xx body of
      these endpoints holds no reset token and no expiry; an `HTTPException` body
      holds its detail text; a 422 body holds the list of validation errors; an
      unhandled exception gives a plain-text 500 with no `detail`. */
  function Received(resp: Endpoints.Response): (reply: Reply)
    ensures reply.Ok? <==> resp.Created? || resp.Message? || resp.Authorized?
    ensures reply.Ok? ==> reply.resetToken.None? && reply.expiresAt.None?
    ensures resp.HttpError? <==> reply.Failed? && reply.detail.DetailText?
    ensures resp.HttpError? ==> reply.detail.text == resp.detail
    ensures resp.Unprocessable? <==> reply == Failed(ErrorList)
    ensures resp.ServerError? <==> reply == Failed(NoDetail)
  {
    match resp
    case Created(_) => Ok(None, None)
    case Message(_) => Ok(None, None)
    case Authorized(_) => Ok(None, None)
    case HttpError(_, detail) => Failed(DetailText(detail))
    case Unprocessable => Failed(ErrorList)
    case ServerError => Failed(NoDetail)
  }

  /** One press of the verify button answered by the server. */
  function PressAgainst(db: Db, p: VerifyOtpFlow.Page, normalize: string -> Option<string>, now: int)
    : (o: Outcome<VerifyOtpFlow.Page>)
    ensures o.request.Some? <==> VerifyOtpFlow.FormValid(p)
    ensures o.state == p
  {
    var r := Endpoints.VerifyOtp(db, OtpVerifyRequest(p.email, p.otp), normalize, now);
    VerifyOtpFlow.PressVerify(p, Received(r.response))
  }

  /** Once the form is sent, the page moves to the login page exactly when the
      server accepted the code; a refusal with a message shows that message, and a
      refused request body leaves the alert with nothing it can render. */
  lemma PressAgainstServer(db: Db, p: VerifyOtpFlow.Page, normalize: string -> Option<string>, now: int)
    requires VerifyOtpFlow.FormValid(p)
    ensures var resp := Endpoints.VerifyOtp(db, OtpVerifyRequest(p.email, p.otp), normalize, now).response;
            var o := PressAgainst(db, p, normalize, now);
            && o.request == Some(VerifyOtp(p.email, p.otp))
            && (o.navigate == Some("/login") <==> resp == Endpoints.Message("OTP verified successfully"))
            && (resp.HttpError? && resp.detail != "" ==> o.alert == Some(Alert(Error, resp.detail)))
            && (resp.Unprocessable? ==> o.alert == Some(Unrenderable(Error)))
  {
  }

  /** A code of one to three characters gets past the browser and the page's
      handler; the request model refuses it, and the page passes the list of
      validation errors to the alert instead of a message. */
  lemma ShortCodeAlertUnrenderable(db: Db, p: VerifyOtpFlow.Page, normalize: string -> Option<string>, now: int)
    requires ValidEmailAddress(p.email) && p.otp != "" && |p.otp| < OtpMinLength
    ensures var o := PressAgainst(db, p, normalize, now);
            && o.request == Some(VerifyOtp(p.email, p.otp))
            && o.alert == Some(Unrenderable(Error))
            && o.navigate.None?
  {
  }
}
