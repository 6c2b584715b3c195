/**
 The countdown of the forgot-password page: whole seconds left before the
 current code expires, its `MM:SS` display, and the gate that enables the
 resend button. Times are integer milliseconds since the epoch.
 */
module Countdown {
  import opened Common
  import opened Text
  import opened Decimal

  const MillisPerSecond: nat := 1000

  /** `getRemainingSeconds`: whole seconds until `expiresAt`, floored, never
      negative, and zero when no expiry is known. */
  function RemainingSeconds(expiresAt: Option<int>, now: int): (r: nat)
    ensures expiresAt.None? ==> r == 0
    ensures expiresAt.Some? ==> (r == 0 <==> expiresAt.value - now < MillisPerSecond)
    ensures expiresAt.Some? && r > 0 ==>
              r * MillisPerSecond <= expiresAt.value - now < (r + 1) * MillisPerSecond
  {
    match expiresAt
    case None => 0
    case Some(expires) =>
      var q := (expires - now) / MillisPerSecond;
      if q > 0 then q else 0
  }

  /** For a fixed expiry the countdown never goes up as the clock advances. */
  lemma RemainingNonIncreasing(expiresAt: Option<int>, earlier: int, later: int)
    requires earlier <= later
    ensures RemainingSeconds(expiresAt, later) <= RemainingSeconds(expiresAt, earlier)
  {
    if expiresAt.Some? {
      var a, b := expiresAt.value - earlier, expiresAt.value - later;
      assert b <= a;
      DivMonotone(b, a);
    }
  }

  lemma DivMonotone(b: int, a: int)
    requires b <= a
    ensures b / 1000 <= a / 1000
  {
  }

  /** The countdown is recomputed from the clock, not decremented: `k` whole
      seconds later it shows exactly `k` less, stopping at zero. */
  lemma RemainingAfter(expiresAt: Option<int>, now: int, k: nat)
    ensures RemainingSeconds(expiresAt, now + k * MillisPerSecond) ==
            if expiresAt.None? || RemainingSeconds(expiresAt, now) <= k then 0
            else RemainingSeconds(expiresAt, now) - k
  {
    if expiresAt.Some? {
      var d := expiresAt.value - now;
      assert expiresAt.value - (now + k * 1000) == d - k * 1000;
      assert (d - k * 1000) / 1000 == d / 1000 - k;
    }
  }

  /** Shape of a `MM:SS` display: a digit run of at least two characters,
      a colon, and exactly two digits. */
  predicate IsClock(r: string) {
    && |r| >= 5
    && r[|r| - 3] == ':'
    && AllDigits(r[..|r| - 3])
    && AllDigits(r[|r| - 2..])
  }

  /** `formatTime`: minutes and seconds, each zero-padded to two digits. */
  function FormatTime(seconds: nat): (r: string)
    ensures IsClock(r)
  {
    var m := PadZero(Render(seconds / 60), 2);
    var s := PadZero(Render(seconds % 60), 2);
    RenderLength(seconds % 60, if seconds % 60 < 10 then 1 else 2);
    ValueOfPadded(seconds / 60, 2);
    ValueOfPadded(seconds % 60, 2);
    ClockParts(m, s);
    m + ":" + s
  }

  lemma {:induction false} ClockParts(m: string, s: string)
    requires |m| >= 2 && |s| == 2 && AllDigits(m) && AllDigits(s)
    ensures IsClock(m + ":" + s)
    ensures MinutesField(m + ":" + s) == Value(m)
    ensures SecondsField(m + ":" + s) == Value(s)
  {
    var r := m + ":" + s;
    assert r[..|r| - 3] == m;
    assert r[|r| - 2..] == s;
  }

  /** The number before the colon of a `MM:SS` display. */
  function MinutesField(r: string): nat
    requires IsClock(r)
  {
    Value(r[..|r| - 3])
  }

  /** The number after the colon of a `MM:SS` display. */
  function SecondsField(r: string): nat
    requires IsClock(r)
  {
    Value(r[|r| - 2..])
  }

  /** Reads a `MM:SS` display back into a number of seconds. */
  function ParseTime(r: string): nat
    requires IsClock(r)
  {
    60 * MinutesField(r) + SecondsField(r)
  }

  lemma {:induction false} FormatTimeParts(n: nat)
    ensures FormatTime(n) == PadZero(Render(n / 60), 2) + ":" + PadZero(Render(n % 60), 2)
  {
  }

  /** The display denotes the number it was made from: `60*m + s == n` with
      `0 <= s < 60`; below 100 minutes it is exactly five characters long. */
  lemma {:induction false} FormatTimeRoundTrip(n: nat)
    ensures ParseTime(FormatTime(n)) == n
    ensures SecondsField(FormatTime(n)) < 60
    ensures n < 100 * 60 ==> |FormatTime(n)| == 5
  {
    FormatTimeFields(n);
    assert 60 * (n / 60) + n % 60 == n;
    if n < 100 * 60 {
      FormatTimeShort(n);
    }
  }

  /** The two fields of the display read back as the minutes and the seconds. */
  lemma {:induction false} FormatTimeFields(n: nat)
    ensures MinutesField(FormatTime(n)) == n / 60
    ensures SecondsField(FormatTime(n)) == n % 60
  {
    var q, rem := n / 60, n % 60;
    assert rem < 60;
    var m := PadZero(Render(q), 2);
    var s := PadZero(Render(rem), 2);
    FormatTimeParts(n);
    TwoDigitsWide(rem);
    ValueOfPadded(q, 2);
    ValueOfPadded(rem, 2);
    ClockParts(m, s);
  }

  /** Below 100 minutes both fields are two digits wide. */
  lemma {:induction false} FormatTimeShort(n: nat)
    requires n < 100 * 60
    ensures |FormatTime(n)| == 5
  {
    var q, rem := n / 60, n % 60;
    assert q < 100 && rem < 60;
    FormatTimeParts(n);
    TwoDigitsWide(q);
    TwoDigitsWide(rem);
  }

  /** A number below 100, padded to two places, is exactly two characters wide. */
  lemma TwoDigitsWide(v: nat)
    requires v < 100
    ensures |PadZero(Render(v), 2)| == 2
  {
    assert Pow10(1) == 10 && Pow10(2) == 100;
    RenderLength(v, if v < 10 then 1 else 2);
  }


  /** `canResend`: a reset token is held and the displayed countdown is at or below zero. */
  predicate CanResend(resetToken: Option<string>, remaining: int) {
    Truthy(resetToken) && remaining <= 0
  }

  /** The resend button is enabled: the gate is open and no resend is in flight. */
  predicate ResendEnabled(resetToken: Option<string>, remaining: int, resendInFlight: bool) {
    CanResend(resetToken, remaining) && !resendInFlight
  }

  /** Against a freshly computed countdown the gate opens exactly when a token is
      held and less than one second of validity is left (or no expiry is known). */
  lemma GateOpensAtZero(resetToken: Option<string>, expiresAt: Option<int>, now: int)
    ensures CanResend(resetToken, RemainingSeconds(expiresAt, now)) <==>
            Truthy(resetToken) && (expiresAt.None? || expiresAt.value - now < MillisPerSecond)
  {
  }
}
