/**
 The signup-verification page, the simpler sibling of the forgot-password
 machine: an email (prefilled from the signup page) and a code. It holds no
 token, no expiry and no countdown, so nothing gates its resend button, and its
 submit handler posts the code without checking it: only the browser's own
 form validation stands before the request.
 */
module VerifyOtpFlow {
  import opened Common
  import opened Text
  import opened Wire
  import opened FormValidation
  import ForgotPasswordFlow

  datatype Page = Page(email: string, otp: string)

  const MaxOtpLength: nat := 6

  /** The page as first rendered: the email comes from the navigation state when
      one was passed along, otherwise the field is empty. */
  function Open(navigationEmail: Option<string>): (p: Page)
    ensures p.otp == ""
    ensures Truthy(navigationEmail) ==> p.email == navigationEmail.value
    ensures !Truthy(navigationEmail) ==> p.email == ""
  {
    Page(if Truthy(navigationEmail) then navigationEmail.value else "", "")
  }

  /** The code field: `maxLength` caps it at six UTF-16 code units, taking the
      longest prefix of whole characters that fits, and nothing filters it to digits. */
  function OtpField(raw: string): (otp: string)
    ensures Utf16Length(otp) <= MaxOtpLength && |otp| <= |raw| && otp == raw[..|otp|]
    ensures |otp| < |raw| ==> Utf16Length(raw[..|otp| + 1]) > MaxOtpLength
    ensures Utf16Length(raw) <= MaxOtpLength ==> otp == raw
  {
    Utf16PrefixWhole(raw, MaxOtpLength);
    Utf16Prefix(raw, MaxOtpLength)
  }

  /** The form passes the browser's validation: the email is filled in and is a
      valid e-mail address, and the code is filled in. */
  predicate FormValid(p: Page) {
    Filled(p.email) && EmailTyped(p.email) && Filled(p.otp)
  }

  /** `handleVerify`: always posts the email and the code as typed. */
  function SubmitVerify(p: Page, reply: Reply): (o: Outcome<Page>)
    ensures o.request == Some(VerifyOtp(p.email, p.otp))
    ensures o.state == p
    ensures reply.Ok? ==> o.navigate == Some("/login") && o.alert == Some(Alert(Success, "OTP verified successfully"))
    ensures reply.Failed? ==>
              o.navigate.None? && o.alert == Some(FailureAlert(reply.detail, "OTP verification failed"))
  {
    var request := Some(VerifyOtp(p.email, p.otp));
    match reply
    case Ok(_, _) => Outcome(p, request, Some(Alert(Success, "OTP verified successfully")), Some("/login"))
    case Failed(detail) =>
      Outcome(p, request, Some(FailureAlert(detail, "OTP verification failed")), None)
  }

  /** A press of the verify button: an invalid form is reported by the browser and
      never reaches the handler. */
  function PressVerify(p: Page, reply: Reply): (o: Outcome<Page>)
    ensures o.request.Some? <==> ValidEmailAddress(p.email) && p.otp != ""
    ensures o.request.Some? ==> o == SubmitVerify(p, reply)
    ensures o.request.None? ==> o == Quiet(p)
  {
    if FormValid(p) then SubmitVerify(p, reply) else Quiet(p)
  }

  /** `handleResend`: does nothing without an email, otherwise posts the email alone. */
  function Resend(p: Page, reply: Reply): (o: Outcome<Page>)
    ensures p.email == "" ==> o == Quiet(p)
    ensures p.email != "" ==> o.request == Some(ResendOtp(p.email))
    ensures o.state == p && o.navigate.None?
  {
    if p.email == "" then Quiet(p)
    else
      var request := Some(ResendOtp(p.email));
      match reply
      case Ok(_, _) => Outcome(p, request, Some(Alert(Success, "OTP resent to your email")), None)
      case Failed(detail) =>
        Outcome(p, request, Some(FailureAlert(detail, "Failed to resend OTP")), None)
  }

  /** Resend is never gated by time: with an email entered, every press posts a
      request, and the page holds no state that a press could change. */
  lemma ResendNeverGated(p: Page, reply1: Reply, reply2: Reply)
    requires p.email != ""
    ensures Resend(p, reply1).request == Resend(p, reply2).request == Some(ResendOtp(p.email))
    ensures Resend(Resend(p, reply1).state, reply2).request.Some?
  {
  }

  /** The two flows differ on short codes. On the forgot-password page (whose
      email was validated on the first step and is read-only since) a code under
      four characters is stopped by the handler with an alert, or by the browser
      when it is empty; this page posts any code that is not empty. */
  lemma ShortCodeHandledDifferently(f: ForgotPasswordFlow.Flow, reply: Reply, now: int)
    requires f.step == ForgotPasswordFlow.OtpStep && ValidEmailAddress(f.email)
    requires Utf16Length(f.otp) < ForgotPasswordFlow.MinOtpLength
    ensures ForgotPasswordFlow.Apply(f, ForgotPasswordFlow.SendOtp(reply), now).request.None?
    ensures f.otp != "" ==>
              ForgotPasswordFlow.Apply(f, ForgotPasswordFlow.SendOtp(reply), now).alert
                == Some(Alert(Error, "Please enter the OTP sent to your email."))
    ensures PressVerify(Page(f.email, f.otp), reply).request.Some? <==> f.otp != ""
    ensures f.otp != "" ==>
              PressVerify(Page(f.email, f.otp), reply).request == Some(VerifyOtp(f.email, f.otp))
  {
  }
}
