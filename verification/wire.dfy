/**
 What the two client verification pages exchange with the outside world:
 the requests they post, the replies they receive (an oracle standing for the
 server and the network), the alert they show and the route they navigate to.
 */
module Wire {
  import opened Common

  datatype Request =
    | ForgotPassword(email: string)                                    // POST /auth/forgot-password
    | ResendForgotOtp(resetToken: Option<string>, email: string)       // POST /auth/resend-forgot-otp
    | VerifyForgotOtp(resetToken: Option<string>, email: string, otp: string)  // POST /auth/verify-forgot-otp
    | ResetPassword(resetToken: Option<string>, email: string,
                    newPassword: string, confirmPassword: string)      // POST /auth/reset-password
    | VerifyOtp(email: string, otp: string)                            // POST /auth/verify-otp
    | ResendOtp(email: string)                                         // POST /auth/resend-otp

  /** The `detail` of a failed request, as `err.response?.data?.detail` reads it. */
  datatype Detail =
    | NoDetail                  // no response, a body that is not JSON, or no `detail` field
    | DetailText(text: string)  // an `HTTPException` detail
    | ErrorList                 // the body of a 422: a non-empty array of error objects

  /** The settled reply to a request: a 2xx body (only the fields the pages read),
      or a failure with its detail. */
  datatype Reply =
    | Ok(resetToken: Option<string>, expiresAt: Option<int>)
    | Failed(detail: Detail)

  datatype AlertKind = Success | Error

  /** What `showAlert` is handed. A text message is shown; an array of error
      objects is not text, and rendering it as the alert's child makes React
      throw. */
  datatype Alert =
    | Alert(kind: AlertKind, message: string)
    | Unrenderable(kind: AlertKind)

  /** Result of one handler: the page's next state and its observable effects. */
  datatype Outcome<S> = Outcome(state: S, request: Option<Request>, alert: Option<Alert>, navigate: Option<string>)

  /** `showAlert("error", err.response?.data?.detail || fallback)`: a non-empty
      text detail is shown, an error list is passed on as it is (it is truthy), and
      anything else falls back. */
  function FailureAlert(detail: Detail, fallback: string): (a: Alert)
    ensures a.kind == Error
    ensures a.Unrenderable? <==> detail.ErrorList?
    ensures detail.DetailText? && detail.text != "" ==> a == Alert(Error, detail.text)
    ensures detail.NoDetail? || detail == DetailText("") ==> a == Alert(Error, fallback)
  {
    match detail
    case NoDetail => Alert(Error, fallback)
    case DetailText(text) => Alert(Error, if text != "" then text else fallback)
    case ErrorList => Unrenderable(Error)
  }

  /** A handler that returns before doing anything. */
  function Quiet<S>(s: S): (o: Outcome<S>)
    ensures o.state == s && o.request.None? && o.alert.None? && o.navigate.None?
  {
    Outcome(s, None, None, None)
  }

  /** A local validation error: an error alert and nothing else. */
  function Rejected<S>(s: S, message: string): (o: Outcome<S>)
    ensures o.state == s && o.request.None? && o.navigate.None?
    ensures o.alert == Some(Alert(Error, message))
  {
    Outcome(s, None, Some(Alert(Error, message)), None)
  }
}
