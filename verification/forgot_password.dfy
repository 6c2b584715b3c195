/**
 The forgot-password page: a three-step machine (email, code, new password)
 holding the reset token, the code's expiry and the displayed countdown.
 Each handler is a pure function from the page state, the reply the server
 would give (used only when a request is actually sent) and the clock to the
 next state and its effects.
 */
module ForgotPasswordFlow {
  import opened Common
  import opened Text
  import opened Countdown
  import opened Wire
  import opened FormValidation

  datatype Step = EmailStep | OtpStep | NewPasswordStep

  datatype Flow = Flow(
    step: Step,
    email: string,
    otp: string,
    newPassword: string,
    confirmPassword: string,
    resetToken: Option<string>,
    expiresAt: Option<int>,
    remaining: int)

  const MinOtpLength: nat := 4
  const MaxOtpLength: nat := 6
  const MinPasswordLength: nat := 6

  /** The page as first rendered. */
  function Start(): (f: Flow)
    ensures f.step == EmailStep && f.resetToken.None? && f.expiresAt.None? && f.remaining == 0
  {
    Flow(EmailStep, "", "", "", "", None, None, 0)
  }

  /** The form fields the user types into are the same. */
  predicate SameInputs(a: Flow, b: Flow) {
    a.email == b.email && a.otp == b.otp && a.newPassword == b.newPassword && a.confirmPassword == b.confirmPassword
  }

  /** The code session (token, expiry, countdown) is the same. */
  predicate SameSession(a: Flow, b: Flow) {
    a.resetToken == b.resetToken && a.expiresAt == b.expiresAt && a.remaining == b.remaining
  }

  /** `handleEmailSubmit`. */
  function SubmitEmail(f: Flow, reply: Reply, now: int): (o: Outcome<Flow>)
    ensures AllJsSpace(f.email) ==> o == Rejected(f, "Please enter your email address.")
    ensures !AllJsSpace(f.email) ==>
              o.request == Some(ForgotPassword(Trim(f.email))) && o.navigate.None? && SameInputs(o.state, f)
    ensures !AllJsSpace(f.email) && reply.Ok? ==>
              && o.state.step == OtpStep
              && o.state.resetToken == reply.resetToken
              && o.state.expiresAt == reply.expiresAt
              && o.state.remaining == RemainingSeconds(reply.expiresAt, now)
    ensures !AllJsSpace(f.email) && reply.Failed? ==>
              o.state.step == EmailStep && SameSession(o.state, f)
  {
    if Trim(f.email) == "" then
      Rejected(f, "Please enter your email address.")
    else
      var request := Some(ForgotPassword(Trim(f.email)));
      match reply
      case Ok(token, expires) =>
        var f' := f.(resetToken := token, expiresAt := expires,
                     remaining := RemainingSeconds(expires, now), step := OtpStep);
        Outcome(f', request, Some(Alert(Success, "OTP sent to your email.")), None)
      case Failed(detail) =>
        Outcome(f.(step := EmailStep), request,
                Some(FailureAlert(detail, "Failed to send OTP.")), None)
  }

  /** `handleResend`: the handler itself checks only that a token and an email are held. */
  function Resend(f: Flow, reply: Reply, now: int): (o: Outcome<Flow>)
    ensures !Truthy(f.resetToken) || f.email == "" ==> o == Quiet(f)
    ensures Truthy(f.resetToken) && f.email != "" ==>
              o.request == Some(ResendForgotOtp(f.resetToken, f.email)) && o.navigate.None?
    ensures Truthy(f.resetToken) && f.email != "" && reply.Ok? ==>
              o.state == f.(expiresAt := reply.expiresAt, remaining := RemainingSeconds(reply.expiresAt, now))
    ensures reply.Failed? ==> o.state == f
  {
    if !Truthy(f.resetToken) || f.email == "" then Quiet(f)
    else
      var request := Some(ResendForgotOtp(f.resetToken, f.email));
      match reply
      case Ok(_, expires) =>
        Outcome(f.(expiresAt := expires, remaining := RemainingSeconds(expires, now)),
                request, Some(Alert(Success, "OTP resent.")), None)
      case Failed(detail) =>
        Outcome(f, request, Some(FailureAlert(detail, "Failed to resend OTP.")), None)
  }

  /** A press of the resend button, which is disabled unless the gate is open and
      no resend is in flight. */
  function PressResend(f: Flow, resendInFlight: bool, reply: Reply, now: int): (o: Outcome<Flow>)
    ensures o.request.Some? ==> ResendEnabled(f.resetToken, f.remaining, resendInFlight)
    ensures !ResendEnabled(f.resetToken, f.remaining, resendInFlight) ==> o == Quiet(f)
    ensures ResendEnabled(f.resetToken, f.remaining, resendInFlight) ==> o == Resend(f, reply, now)
  {
    if ResendEnabled(f.resetToken, f.remaining, resendInFlight) then Resend(f, reply, now) else Quiet(f)
  }

  /** `handleOtpSubmit`. */
  function SubmitOtp(f: Flow, reply: Reply): (o: Outcome<Flow>)
    ensures Utf16Length(f.otp) < MinOtpLength ==>
              o == Rejected(f, "Please enter the OTP sent to your email.")
    ensures Utf16Length(f.otp) >= MinOtpLength ==>
              o.request == Some(VerifyForgotOtp(f.resetToken, f.email, f.otp)) && o.navigate.None?
    ensures Utf16Length(f.otp) >= MinOtpLength && reply.Ok? ==>
              o.state == f.(step := NewPasswordStep)
    ensures reply.Failed? ==> o.state == f
  {
    if f.otp == "" || Utf16Length(f.otp) < MinOtpLength then
      Rejected(f, "Please enter the OTP sent to your email.")
    else
      var request := Some(VerifyForgotOtp(f.resetToken, f.email, f.otp));
      match reply
      case Ok(_, _) =>
        Outcome(f.(step := NewPasswordStep), request, Some(Alert(Success, "OTP verified successfully.")), None)
      case Failed(detail) =>
        Outcome(f, request, Some(FailureAlert(detail, "Failed to verify OTP.")), None)
  }

  /** `handleResetSubmit`: the length check comes before the mismatch check. */
  function SubmitNewPassword(f: Flow, reply: Reply): (o: Outcome<Flow>)
    ensures Utf16Length(f.newPassword) < MinPasswordLength ==>
              o == Rejected(f, "Password must be at least 6 characters.")
    ensures Utf16Length(f.newPassword) >= MinPasswordLength && f.newPassword != f.confirmPassword ==>
              o == Rejected(f, "Passwords do not match.")
    ensures o.request.Some? <==>
              Utf16Length(f.newPassword) >= MinPasswordLength && f.newPassword == f.confirmPassword
    ensures o.request.Some? ==>
              o.request.value == ResetPassword(f.resetToken, f.email, f.newPassword, f.confirmPassword)
    ensures o.state == f
    ensures o.navigate.Some? <==> o.request.Some? && reply.Ok?
    ensures o.navigate.Some? ==> o.navigate.value == "/login"
  {
    if Utf16Length(f.newPassword) < MinPasswordLength then
      Rejected(f, "Password must be at least 6 characters.")
    else if f.newPassword != f.confirmPassword then
      Rejected(f, "Passwords do not match.")
    else
      var request := Some(ResetPassword(f.resetToken, f.email, f.newPassword, f.confirmPassword));
      match reply
      case Ok(_, _) =>
        Outcome(f, request, Some(Alert(Success, "Password updated successfully.")), Some("/login"))
      case Failed(detail) =>
        Outcome(f, request, Some(FailureAlert(detail, "Failed to reset password.")), None)
  }

  /** The code field: `maxLength` lets in at most six UTF-16 code units of whole
      characters, and the change handler keeps only their digits. */
  function OtpField(raw: string): (otp: string)
    ensures |otp| <= MaxOtpLength && AllDigits(otp)
    ensures exists k :: && 0 <= k <= |raw| && Utf16Length(raw[..k]) <= MaxOtpLength
                        && (k < |raw| ==> Utf16Length(raw[..k + 1]) > MaxOtpLength)
                        && otp == DigitsOnly(raw[..k])
    ensures Utf16Length(raw) <= MaxOtpLength ==> otp == DigitsOnly(raw)
    ensures AllDigits(raw) && |raw| <= MaxOtpLength ==> otp == raw
  {
    var capped := Utf16Prefix(raw, MaxOtpLength);
    assert capped == raw[..|capped|];
    Utf16PrefixWhole(raw, MaxOtpLength);
    assert AllDigits(raw) ==> Utf16Length(raw) == |raw| by {
      if AllDigits(raw) {
        forall i | 0 <= i < |raw| ensures raw[i] <= '\U{FFFF}' {
          assert IsDigit(raw[i]);
        }
        Utf16LengthBmp(raw);
      }
    }
    DigitsOnly(capped)
  }

  /** One tick of the countdown timer, which only runs while an expiry is held. */
  function Tick(f: Flow, now: int): (f': Flow)
    ensures SameInputs(f', f) && f'.step == f.step
    ensures f'.resetToken == f.resetToken && f'.expiresAt == f.expiresAt
    ensures f.expiresAt.Some? ==> f'.remaining == RemainingSeconds(f.expiresAt, now)
    ensures f.expiresAt.None? ==> f' == f
  {
    if f.expiresAt.Some? then f.(remaining := RemainingSeconds(f.expiresAt, now)) else f
  }

  /** What can happen to the page. A submit is only possible on the step whose
      form is rendered; the resend button is only rendered on the code step. */
  datatype Event =
    | TimerTick
    | TypeEmail(value: string)
    | TypeOtp(raw: string)
    | TypeNewPassword(value: string)
    | TypeConfirmPassword(value: string)
    | SendEmail(reply: Reply)
    | ClickResend(resendInFlight: bool, reply: Reply)
    | SendOtp(reply: Reply)
    | SendNewPassword(reply: Reply)

  /** The rendered form passes the browser's validation. The email step checks
      `required` and `type="email"`; on the later steps the email field is
      read-only and so not checked; the code field is `required`; both password
      fields are `required` with `minLength` 6. */
  predicate FormValid(f: Flow) {
    match f.step
    case EmailStep => Filled(f.email) && EmailTyped(f.email)
    case OtpStep => Filled(f.otp)
    case NewPasswordStep =>
      && Filled(f.newPassword) && LongEnough(f.newPassword, MinPasswordLength)
      && Filled(f.confirmPassword) && LongEnough(f.confirmPassword, MinPasswordLength)
  }

  /** A press of the email step's submit button: the browser validates the form
      before `handleEmailSubmit` runs, so the handler's blank-email check never
      fires and a valid address, having nothing to trim, is posted as typed. */
  function PressSubmitEmail(f: Flow, reply: Reply, now: int): (o: Outcome<Flow>)
    ensures o.request.Some? <==> f.step == EmailStep && ValidEmailAddress(f.email)
    ensures o.request.Some? ==> o == SubmitEmail(f, reply, now) && o.request == Some(ForgotPassword(f.email))
    ensures o.request.None? ==> o == Quiet(f)
  {
    RequiredEmail(f.email);
    if f.step == EmailStep && FormValid(f) then
      EmailIsTrimmed(f.email);
      SubmitEmail(f, reply, now)
    else
      Quiet(f)
  }

  function Apply(f: Flow, e: Event, now: int): Outcome<Flow> {
    match e
    case TimerTick => Quiet(Tick(f, now))
    case TypeEmail(v) => Quiet(if f.step == EmailStep then f.(email := v) else f)
    case TypeOtp(raw) => Quiet(if f.step == OtpStep then f.(otp := OtpField(raw)) else f)
    case TypeNewPassword(v) => Quiet(if f.step == NewPasswordStep then f.(newPassword := v) else f)
    case TypeConfirmPassword(v) => Quiet(if f.step == NewPasswordStep then f.(confirmPassword := v) else f)
    case SendEmail(reply) => PressSubmitEmail(f, reply, now)
    case ClickResend(busy, reply) => if f.step == OtpStep then PressResend(f, busy, reply, now) else Quiet(f)
    case SendOtp(reply) => if f.step == OtpStep && FormValid(f) then SubmitOtp(f, reply) else Quiet(f)
    case SendNewPassword(reply) =>
      if f.step == NewPasswordStep && FormValid(f) then SubmitNewPassword(f, reply) else Quiet(f)
  }

  /** Behind the browser's validation the handler's blank-email check never fires:
      the email is posted exactly when it is a valid address, and as typed, since a
      valid address has nothing to trim. */
  lemma EmailSubmitIff(f: Flow, reply: Reply, now: int)
    ensures var o := Apply(f, SendEmail(reply), now);
            && (o.request.Some? <==> f.step == EmailStep && ValidEmailAddress(f.email))
            && (o.request.Some? ==> o.request == Some(ForgotPassword(f.email)))
            && (o.request.None? ==> o == Quiet(f))
  {
  }

  /** A code is posted exactly when it has at least four characters; a shorter
      non-empty one draws the handler's alert, an empty one is stopped by the browser. */
  lemma OtpSubmitIff(f: Flow, reply: Reply, now: int)
    ensures var o := Apply(f, SendOtp(reply), now);
            && (o.request.Some? <==> f.step == OtpStep && Utf16Length(f.otp) >= MinOtpLength)
            && (o.request.Some? ==> o.request == Some(VerifyForgotOtp(f.resetToken, f.email, f.otp)))
            && (f.step == OtpStep && f.otp != "" && Utf16Length(f.otp) < MinOtpLength ==>
                  o == Rejected(f, "Please enter the OTP sent to your email."))
            && (f.step != OtpStep || f.otp == "" ==> o == Quiet(f))
  {
  }

  /** Behind `minLength` the handler's length check never fires: the new password
      is posted exactly when it is long enough and confirmed, and the only alert
      the handler can raise by itself is the mismatch. */
  lemma NewPasswordSubmitIff(f: Flow, reply: Reply, now: int)
    ensures var o := Apply(f, SendNewPassword(reply), now);
            && (o.request.Some? <==>
                  f.step == NewPasswordStep && Utf16Length(f.newPassword) >= MinPasswordLength
                  && f.newPassword == f.confirmPassword)
            && (o.request.None? && o.alert.Some? <==>
                  f.step == NewPasswordStep && FormValid(f) && f.newPassword != f.confirmPassword)
            && (o.request.None? && o.alert.Some? ==> o.alert == Some(Alert(Error, "Passwords do not match.")))
  {
  }

  /** The displayed countdown is never below the true one at `now`: it is the true
      value at some earlier instant, and the true value only falls with time. It is
      never negative and is zero while no expiry is held. */
  predicate Inv(f: Flow, now: int) {
    && f.remaining >= RemainingSeconds(f.expiresAt, now)
    && f.remaining >= 0
    && (f.expiresAt.None? ==> f.remaining == 0)
  }

  lemma StartInv(now: int)
    ensures Inv(Start(), now)
  {
  }

  /** Every event, taken at a time no earlier than the last, keeps the invariant. */
  lemma ApplyKeepsInv(f: Flow, before: int, e: Event, now: int)
    requires Inv(f, before) && before <= now
    ensures Inv(Apply(f, e, now).state, now)
  {
    RemainingNonIncreasing(f.expiresAt, before, now);
  }

  /** Timestamped events, in the order they happen. */
  datatype Timed = At(time: int, event: Event)

  predicate Chronological(trace: seq<Timed>, from: int) {
    forall i :: 0 <= i < |trace| ==> from <= trace[i].time && (i > 0 ==> trace[i - 1].time <= trace[i].time)
  }

  function Run(f: Flow, trace: seq<Timed>): Flow
    decreases |trace|
  {
    if trace == [] then f else Run(Apply(f, trace[0].event, trace[0].time).state, trace[1..])
  }

  function LastTime(trace: seq<Timed>, from: int): int {
    if trace == [] then from else trace[|trace| - 1].time
  }

  /** Any chronological run from a state satisfying the invariant ends in one. */
  lemma {:induction false} RunKeepsInv(f: Flow, from: int, trace: seq<Timed>)
    requires Inv(f, from) && Chronological(trace, from)
    ensures Inv(Run(f, trace), LastTime(trace, from))
    decreases |trace|
  {
    if trace != [] {
      var t := trace[0].time;
      ApplyKeepsInv(f, from, trace[0].event, t);
      assert Chronological(trace[1..], t) by {
        forall i | 0 <= i < |trace[1..]|
          ensures t <= trace[1..][i].time
        {
          ChronologicalMonotone(trace, 0, i + 1);
        }
      }
      RunKeepsInv(Apply(f, trace[0].event, t).state, t, trace[1..]);
      if |trace| > 1 {
        assert LastTime(trace[1..], t) == LastTime(trace, from);
      }
    }
  }

  lemma {:induction false} ChronologicalMonotone(trace: seq<Timed>, i: nat, j: nat)
    requires i <= j < |trace|
    requires forall k :: 0 < k < |trace| ==> trace[k - 1].time <= trace[k].time
    ensures trace[i].time <= trace[j].time
    decreases j - i
  {
    if i < j {
      ChronologicalMonotone(trace, i, j - 1);
    }
  }

  /** The gate never opens early: whenever the displayed countdown lets a resend
      through, the true countdown at that instant is zero as well. */
  lemma GateNeverEarly(f: Flow, now: int)
    requires Inv(f, now) && CanResend(f.resetToken, f.remaining)
    ensures RemainingSeconds(f.expiresAt, now) == 0
  {
  }

  /** Right after a tick the gate is exact: open if and only if a token is held and
      the true countdown is zero. */
  lemma GateExactAfterTick(f: Flow, now: int)
    requires Inv(f, now)
    ensures CanResend(f.resetToken, Tick(f, now).remaining) <==>
            Truthy(f.resetToken) && RemainingSeconds(f.expiresAt, now) == 0
  {
  }

  /** Once a code is issued with at least a second of validity, the resend button
      stays inert until the countdown is recomputed. */
  lemma ResendBlockedAfterIssue(f: Flow, token: Option<string>, expires: int, now: int,
                                resendInFlight: bool, reply: Reply, later: int)
    requires !AllJsSpace(f.email) && expires - now >= MillisPerSecond
    ensures var f' := SubmitEmail(f, Ok(token, Some(expires)), now).state;
            PressResend(f', resendInFlight, reply, later).request.None?
  {
  }

  /** After the countdown has run out, a resend is sent with the token and the email
      held, and its success renews the expiry while keeping the token and the step. */
  lemma ResendAfterExpiry(f: Flow, now: int, reply: Reply)
    requires Inv(f, now) && Truthy(f.resetToken) && f.email != ""
    requires f.expiresAt.Some? ==> f.expiresAt.value - now < MillisPerSecond
    ensures var o := PressResend(Tick(f, now), false, reply, now);
            && o.request == Some(ResendForgotOtp(f.resetToken, f.email))
            && o.state.resetToken == f.resetToken && o.state.step == f.step
            && (reply.Ok? ==> o.state.expiresAt == reply.expiresAt)
            && (reply.Failed? ==> o.state == Tick(f, now))
  {
  }

  /** A rejected code leaves the step, the token, the expiry and the countdown as
      they were, so the user can retry against the same session. */
  lemma FailedOtpKeepsSession(f: Flow, detail: Detail)
    ensures var o := SubmitOtp(f, Failed(detail));
            o.state.step == f.step && SameSession(o.state, f)
  {
  }

  /** The step only moves forward on a successful reply. */
  lemma StepAdvancesOnlyOnSuccess(f: Flow, e: Event, now: int)
    ensures var o := Apply(f, e, now);
            o.state.step != f.step ==>
              o.request.Some? && (e.SendEmail? || e.SendOtp?) && e.reply.Ok?
  {
  }
}
