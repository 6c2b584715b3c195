# SmartHire-AI one-time-code lifecycle, in Dafny

This project models how SmartHire-AI handles one-time passcodes (OTP) for email verification and password reset, on both sides of the wire, and proves properties of the model.

## Client side

**Forgot-password page.** This is a three-step machine: email, then code, then new password.
- It holds the reset token, the expiry and a countdown of remaining seconds.
- The browser's form validation (`required`, `type="email"`, `minLength`) runs first; the page's own checks run after it, before each request.
- Its resend button is gated by that countdown.
- Every handler is a pure function `(state, server reply, now) -> Outcome`. An `Outcome` carries:
  - the next state;
  - the request that was posted (if any);
  - the alert shown;
  - the route navigated to.

**Signup-verification page.** This is the simpler sibling of the forgot-password page. It has:
- no token;
- no countdown;
- no resend gate;
- no local check of the code beyond the browser's form validation.

**Authentication context.** It holds the in-memory token and mirrors it into local storage.

## Server side

**The code store.**
- The database is a value: a sequence of user rows, a sequence of code rows, and the next id of each table.
- `create_and_store_otp` issues a code. Issuing spends every earlier code of the user.
- `verify_otp_code` consumes the newest matching live code and marks the user verified.

**The four authentication endpoints.**
- Each one is a transition `(db, request, oracles) -> (db, response)`.
- The request-model validation comes first and answers 422 with nothing stored.

**The resume analyser's pure logic.**
- Whitespace normalisation.
- The `[a-zA-Z]{3,}` tokenizer.
- The sorted, stopword-filtered, truncated `missing` and `matched` keyword lists.
- The recommendation bands of the similarity score.

## Oracles and time

Remote effects are inputs, not modelled behaviour:
- **Server replies** seen by the client are a `Reply` argument: `Ok(token, expiry)` or `Failed(detail)`. The detail is a text, the list of validation errors of a 422 body, or absent. `VerifyRoundTrip` connects the verification page to the modelled server instead.
- **The random code** is `pick`, a value in `100000..999999`.
- **Mail delivery** is a `mailSent` flag.
- **Password hashing and checking** and **token signing** are function parameters.
- **Email-address validation and normalisation** on the server (`EmailStr`) is a parameter `normalize`. It returns none for a rejected address and the normalised address otherwise. The handlers look up and store the normalised form.

Time is integer milliseconds since the epoch throughout.
- Dafny's Euclidean `/ 1000` agrees with `Math.floor` for every sign.
- The code lifetime is `OTP_EXPIRY_MINUTES` at its default of 5 minutes, i.e. 300000 ms.

Proved properties include:
- **Countdown:** `formatTime` round-trips through parsing. The countdown is non-negative and non-increasing in time. The resend gate opens exactly when the expiry is less than a second away.
- **Validation:** every local validation failure sends nothing and changes nothing. Behind the browser's validation, the page's blank-email and short-password checks can never fire, while its short-code check still can. A failed verification keeps the session. The page invariant holds across any chronological run of events.
- **Verification page against the server:** it moves to the login page exactly when the server accepts the code. A code of one to three characters passes the browser and the page, and the 422 error list it earns is handed to the alert, which cannot render it.
- **Code store:** after issuing, the user holds exactly one live code. With requests handled one at a time, a code is single use. Expiry is strict. Only the newest code is accepted.
- **Endpoints:** two spellings of an address that normalise alike get the same replies. Login issues a token exactly when the normalised address belongs to a user, the password checks out and the email is verified, and 401 is decided before 403. Signup, then verifying with the mailed code, then login succeeds end to end. Every endpoint keeps the database consistent.
- **Resume analyser:** preprocessing is idempotent and its fixed points are exactly the normalized lower-case strings. The tokens are exactly the maximal letter runs. The keyword lists are the fifty smallest qualifying words, strictly ascending, and disjoint. A higher score never gets a weaker recommendation.

Three behaviours of the code are worth stating, and the model keeps them:
- **Resend keeps the token.** After a successful resend, the forgot-password page replaces only `expiresAt` and keeps `resetToken` (frontend/src/pages/ForgotPassword.jsx:63-80, `ForgotPasswordFlow.Resend`). A token sent back with the resend reply is ignored.
- **No check that the expiry is in the future.** The page accepts whatever expiry the server sends. An expiry already in the past yields a countdown of 0 and an open resend gate.
- **No countdown at signup.** The signup endpoint returns the user record, with no token and no expiry (backend/main.py:28-50). So the signup-verification page has no countdown and no resend gate.

## Model

| member | source | states |
|---|---|---|
| Countdown.RemainingSeconds | frontend/src/pages/ForgotPassword.jsx:12-17 | no expiry gives 0; otherwise 0 exactly when less than a second remains, and a positive result `r` satisfies `r*1000 <= expires-now < (r+1)*1000` (the floor of the difference in seconds) |
| Countdown.RemainingNonIncreasing | frontend/src/pages/ForgotPassword.jsx:16 | for a fixed expiry, a later clock never shows more remaining seconds |
| Countdown.RemainingAfter | frontend/src/pages/ForgotPassword.jsx:16 | `k` whole seconds later the countdown has dropped by exactly `k`, stopping at 0 |
| Countdown.FormatTime | frontend/src/pages/ForgotPassword.jsx:6-10 | the result is a clock string: at least two minute digits, a colon, exactly two second digits |
| Countdown.FormatTimeRoundTrip | frontend/src/pages/ForgotPassword.jsx:6-10 | parsing the clock string back gives `60*m + s == n` with `s < 60`; below 100 minutes the string is exactly `MM:SS` |
| Countdown.GateOpensAtZero | frontend/src/pages/ForgotPassword.jsx:133 | the resend gate holds exactly when the token is a non-empty string and either there is no expiry or it is less than a second away |
| Decimal.Render | frontend/src/pages/ForgotPassword.jsx:9 | `String(n)`: at least one digit, all digits, leading zero only for 0 |
| Decimal.ValueOfRender | frontend/src/pages/ForgotPassword.jsx:9 | the decimal rendering reads back as the number |
| Decimal.RenderLength | frontend/src/pages/ForgotPassword.jsx:9 | the rendering of `n` with `10^(k-1) <= n < 10^k` has exactly `k` digits |
| Decimal.PadZero | frontend/src/pages/ForgotPassword.jsx:9 | `padStart(width, "0")`: length is the larger of the two, the original is the suffix, only zeros before it |
| Decimal.ValueOfPadded | frontend/src/pages/ForgotPassword.jsx:9 | zero padding does not change the value read back |
| Text.Trim | frontend/src/pages/ForgotPassword.jsx:42 | empty exactly when the string is all JavaScript whitespace; otherwise it starts and ends with non-whitespace |
| Text.TrimIsSlice | frontend/src/pages/ForgotPassword.jsx:42 | the trimmed string is a contiguous slice of the original with only whitespace before and after it |
| Text.DigitsOnly | frontend/src/pages/ForgotPassword.jsx:180 | `replace(/\D/g, "")`: only digits remain, each taken from the input; an all-digit input is unchanged; a single character is kept exactly when it is a digit |
| Text.DigitsOnlyAppend | frontend/src/pages/ForgotPassword.jsx:180 | the filter distributes over concatenation, so with the one-character case the result is exactly the input's digits, in order |
| Text.TrimKeepsClean | frontend/src/pages/ForgotPassword.jsx:42-48 | a string with no whitespace at either end is its own trim |
| Text.LowerStr | backend/ai_engine.py:10 | same length, no upper-case letter, each character lowered; a string without upper case is unchanged |
| Text.Utf16Length | frontend/src/pages/ForgotPassword.jsx:84 | `.length` is between the number of code points and twice that; one character counts one unit, or two above U+FFFF |
| Text.Utf16LengthBmp | frontend/src/pages/ForgotPassword.jsx:84 | without characters above U+FFFF, `.length` equals the number of characters |
| Text.Utf16LengthAppend | frontend/src/pages/ForgotPassword.jsx:84 | lengths add over concatenation, so `.length` is exactly the sum of the characters' units |
| Text.Utf16Prefix | frontend/src/pages/VerifyOtp.jsx:58 | `maxLength`: a prefix of the input of at most `n` UTF-16 units, and the longest one of whole characters: one more character would exceed `n` |
| Text.FitCountFits | frontend/src/pages/VerifyOtp.jsx:58 | the characters counted as fitting take at most `n` units, and one more character would take more |
| Text.Utf16PrefixWhole | frontend/src/pages/VerifyOtp.jsx:58 | a value of at most `n` units is let through whole |
| Common.Take | backend/ai_engine.py:71 | `[:n]`: a prefix of at most `n` elements, exactly `n` when the input is long enough, the whole input when it is short enough |
| FormValidation.IndexOf | frontend/src/pages/ForgotPassword.jsx:147 | the first position holding the character, or the length when there is none |
| FormValidation.DomainEnd | frontend/src/pages/ForgotPassword.jsx:147 | a domain accepted by `type="email"` is not empty and ends in a letter or a digit |
| FormValidation.EmailIsTrimmed | frontend/src/pages/ForgotPassword.jsx:147-150 | an address accepted by `type="email"` is not blank and trimming it changes nothing |
| ForgotPasswordFlow.Start | frontend/src/pages/ForgotPassword.jsx:21-30 | the page opens on the email step with no token, no expiry and a zero countdown |
| ForgotPasswordFlow.SubmitEmail | frontend/src/pages/ForgotPassword.jsx:40-61 | a blank email (after trim) is rejected with no request and no change; otherwise the trimmed email is posted; success stores token and expiry, recomputes the countdown and moves to the code step; failure returns to the email step with the session and inputs unchanged |
| ForgotPasswordFlow.Resend | frontend/src/pages/ForgotPassword.jsx:63-80 | no token or no email: nothing happens; otherwise token and email are posted; success replaces only the expiry and the countdown (token and step kept); failure changes nothing |
| ForgotPasswordFlow.PressResend | frontend/src/pages/ForgotPassword.jsx:205-208 | a press posts a request only when the token is set, the countdown is at 0 and no resend is in flight; otherwise nothing happens |
| ForgotPasswordFlow.SubmitOtp | frontend/src/pages/ForgotPassword.jsx:82-103 | a code under four UTF-16 units is rejected locally with no request; otherwise token, email and code are posted; success moves to the password step; failure leaves the whole state unchanged |
| ForgotPasswordFlow.SubmitNewPassword | frontend/src/pages/ForgotPassword.jsx:105-131 | a password under six units is rejected first, a mismatch second, neither posts; a request is posted exactly when both checks pass; navigation to `/login` happens exactly on a successful post |
| ForgotPasswordFlow.OtpField | frontend/src/pages/ForgotPassword.jsx:180-182 | the code field holds at most six characters, all digits, and they are the digits of the longest prefix of the input that fits in six UTF-16 units; an input within six units keeps exactly its digits; a short all-digit input is kept as typed |
| ForgotPasswordFlow.Tick | frontend/src/pages/ForgotPassword.jsx:32-38 | a timer tick recomputes only the countdown from the stored expiry, and does nothing without one |
| ForgotPasswordFlow.StartInv | frontend/src/pages/ForgotPassword.jsx:28-30 | the initial state satisfies the page invariant (countdown never below the true remaining time, never negative, zero without expiry) |
| ForgotPasswordFlow.ApplyKeepsInv | frontend/src/pages/ForgotPassword.jsx:32-131 | every event (tick, typing, submit, resend) at a later time keeps the page invariant |
| ForgotPasswordFlow.RunKeepsInv | frontend/src/pages/ForgotPassword.jsx:32-131 | the invariant holds after any chronological sequence of events |
| ForgotPasswordFlow.GateNeverEarly | frontend/src/pages/ForgotPassword.jsx:133 | whenever the gate is open under the invariant, the true remaining time is 0: resend is never enabled early |
| ForgotPasswordFlow.GateExactAfterTick | frontend/src/pages/ForgotPassword.jsx:133 | right after a tick the gate is open exactly when a token is held and the expiry is absent or less than a second away |
| ForgotPasswordFlow.ResendBlockedAfterIssue | frontend/src/pages/ForgotPassword.jsx:49-52 | after a successful email step whose expiry is at least a second ahead, a resend press posts nothing until a tick recomputes the countdown |
| ForgotPasswordFlow.ResendAfterExpiry | frontend/src/pages/ForgotPassword.jsx:133 | once less than a second remains and a tick has run, pressing resend posts the token and email; success renews only the expiry, failure changes nothing |
| ForgotPasswordFlow.FailedOtpKeepsSession | frontend/src/pages/ForgotPassword.jsx:97-99 | a failed code submission keeps step, token, expiry and countdown, so the retry runs against the same session |
| ForgotPasswordFlow.PressSubmitEmail | frontend/src/pages/ForgotPassword.jsx:140-150 | a press of the email step's button reaches the handler exactly when the page is on that step and the email is a valid address, and then posts it as typed; otherwise nothing happens at all, so the handler's blank-email alert is unreachable |
| ForgotPasswordFlow.EmailSubmitIff | frontend/src/pages/ForgotPassword.jsx:140-150 | the same holds for the page's email-submit event: posted exactly for a valid address on the email step, as typed, and otherwise no effect |
| ForgotPasswordFlow.OtpSubmitIff | frontend/src/pages/ForgotPassword.jsx:166-182 | the code is posted exactly when it has at least four UTF-16 units; a shorter non-empty code draws the handler's alert; an empty one, or another step, does nothing |
| ForgotPasswordFlow.NewPasswordSubmitIff | frontend/src/pages/ForgotPassword.jsx:227-256 | the new password is posted exactly when it has at least six units and matches the confirmation; the only alert the handler raises by itself is the mismatch, exactly when the form is valid and the two differ |
| ForgotPasswordFlow.StepAdvancesOnlyOnSuccess | frontend/src/pages/ForgotPassword.jsx:52 | the step moves forward only on a successful reply to a posted request |
| Wire.FailureAlert | frontend/src/pages/VerifyOtp.jsx:20-21 | `detail \|\| fallback` handed to the alert: a non-empty text detail is shown, an error list is passed on and cannot be rendered, and no detail or an empty one gives the fallback |
| VerifyOtpFlow.Open | frontend/src/pages/VerifyOtp.jsx:8-9 | the email is prefilled from the navigation state when one was passed, otherwise empty; the code starts empty |
| VerifyOtpFlow.OtpField | frontend/src/pages/VerifyOtp.jsx:55-58 | the code field is the longest prefix of what was typed that fits in six UTF-16 units, with no digit filter; an input that fits is kept whole |
| VerifyOtpFlow.SubmitVerify | frontend/src/pages/VerifyOtp.jsx:12-25 | the handler posts email and code with no check of its own; success navigates to `/login`; failure stays and shows the detail or "OTP verification failed" |
| VerifyOtpFlow.PressVerify | frontend/src/pages/VerifyOtp.jsx:41-58 | a press reaches the handler exactly when the email is a valid address and the code is not empty; otherwise nothing happens |
| VerifyOtpFlow.Resend | frontend/src/pages/VerifyOtp.jsx:27-36 | without an email nothing happens; otherwise only the email is posted and the page state is unchanged |
| VerifyOtpFlow.ResendNeverGated | frontend/src/pages/VerifyOtp.jsx:70-76 | with an email entered, every press posts, whatever the previous reply |
| VerifyOtpFlow.ShortCodeHandledDifferently | frontend/src/pages/VerifyOtp.jsx:41-58 | for a code under four units, the forgot-password page posts nothing (a non-empty one draws its alert), while this page posts it exactly when it is not empty |
| VerifyRoundTrip.Received | frontend/src/pages/VerifyOtp.jsx:16-20 | a 2xx response arrives as success without token or expiry; an HTTP error arrives with its detail text; a 422 arrives with its error list; a 500 arrives with no detail |
| VerifyRoundTrip.PressAgainst | frontend/src/pages/VerifyOtp.jsx:12-25 | a press answered by the verify endpoint posts exactly when the form is valid and leaves the page state as it was |
| VerifyRoundTrip.PressAgainstServer | backend/main.py:53-65 | with a valid form the page navigates to `/login` exactly when the server verified the code; a 404 or 400 shows the server's text; a 422 leaves the alert unrenderable |
| VerifyRoundTrip.ShortCodeAlertUnrenderable | backend/schemas.py:37-39 | a code of one to three characters with a valid address is posted and refused, and the alert is handed an error list it cannot render |
| AuthContext.Mirror | frontend/src/context/AuthContext.jsx:8-14 | storage holds the token when it is a non-empty string and is cleared otherwise |
| AuthContext.Mount | frontend/src/context/AuthContext.jsx:6-14 | the initial token is what storage held, and the mirror then runs |
| AuthContext.Login | frontend/src/context/AuthContext.jsx:16-18 | the token becomes the argument, whatever it was; authenticated exactly when that is a non-empty string |
| AuthContext.Logout | frontend/src/context/AuthContext.jsx:20-22 | the token becomes null, storage is cleared, and the context is not authenticated |
| AuthContext.ReplayMirrored | frontend/src/context/AuthContext.jsx:8-22 | storage mirrors the token after any sequence of logins and logouts |
| AuthContext.ReloadKeepsStatus | frontend/src/context/AuthContext.jsx:6 | remounting from storage restores the authentication status, and the token when authenticated |
| AuthContext.LastActionDecides | frontend/src/context/AuthContext.jsx:16-25 | after a session the last action decides: a final logout leaves the context unauthenticated, a final login leaves its token |
| Models.Empty | backend/models.py:16-39 | a fresh database is empty and consistent |
| Models.NewUser | backend/models.py:16-24 | a new user row carries the given fields, is not verified and is created now |
| Models.FindByEmail | backend/main.py:30 | `.filter(email == e).first()`: the first row with the email, or none exactly when no row has it |
| Models.FindByEmailUnique | backend/models.py:21 | with unique emails, the row found is the only row with that email |
| Models.DeleteUser | backend/models.py:26-33 | deleting a user removes that user and every code row of that user and keeps all other rows |
| Models.DeleteKeepsValid | backend/models.py:26-33 | deletion keeps the database consistent and leaves no code pointing at the removed user |
| OtpStore.GenerateOtp | backend/email_utils.py:13-14 | the code is six decimal digits without a leading zero, reading back as the random pick in `100000..999999` |
| OtpStore.SpendAll | backend/email_utils.py:43-45 | every code of the user is marked used and every other row is left as it was |
| OtpStore.CreateAndStoreOtp | backend/email_utils.py:41-58 | one row is appended (user, code, now plus the lifetime, unused); the user's earlier rows are spent with no other change; other users' rows and the user table are untouched; the new code is the user's only live code |
| OtpStore.LatestMatch | backend/email_utils.py:63-73 | none exactly when no row matches (user, code, unused, expiry strictly after now); otherwise a matching row with the latest expiry, the earliest of equal ones |
| OtpStore.MarkVerified | backend/email_utils.py:78 | the user's row becomes verified and every other row is unchanged |
| OtpStore.VerifyOtpCode | backend/email_utils.py:61-80 | fails, changing nothing, exactly when no live unexpired row of the user carries the code; on success exactly the latest matching row becomes used and the user is marked verified |
| OtpStore.IssueKeepsValid | backend/email_utils.py:41-58 | issuing keeps the database consistent, including at most one live code per user |
| OtpStore.VerifyKeepsValid | backend/email_utils.py:61-80 | consuming a code keeps the database consistent |
| OtpStore.SingleUse | backend/email_utils.py:77-80 | with requests handled one at a time, after a successful verification every later verification for that user fails, whatever the code and time |
| OtpStore.IssuedCodeAccepted | backend/email_utils.py:48-54 | a fresh code verifies at any time before its lifetime has passed |
| OtpStore.IssuedCodeExpires | backend/email_utils.py:69 | once the newest code's lifetime has passed, nothing verifies for that user |
| OtpStore.OnlyNewestCodeAccepted | backend/email_utils.py:43-45 | after issuing, only the new code can verify |
| Schemas.BearerToken | backend/schemas.py:27-29 | the token type takes its default `"bearer"` |
| Schemas.ScoreOnly | backend/schemas.py:55-57 | the recommendation is optional and defaults to none |
| Endpoints.Signup | backend/main.py:28-50 | 422 on an invalid body; 400 "Email already registered" with nothing stored when the normalised email is known; otherwise exactly one unverified user, stored under the normalised email, and one code are added, and the reply is 201 with the user, or 500 when the mail fails |
| Endpoints.VerifyOtp | backend/main.py:53-65 | 422 on an invalid body (address refused or code outside four to six characters); 404 "User not found" when no user has the normalised email; otherwise the code store decides: 200 "OTP verified successfully" with its changes, or 400 "Invalid or expired OTP" with nothing changed |
| Endpoints.ResendOtp | backend/main.py:68-76 | 422 on an invalid body; 404 when no user has the normalised email; otherwise a fresh code is always issued, and the reply is 200 "OTP resent successfully" or 500 when the mail fails |
| Endpoints.Login | backend/main.py:79-95 | never changes the database; 422 on an invalid body; 401 when no user has the normalised email or the password is wrong, checked before 403 for an unverified email; otherwise a bearer token |
| Endpoints.LoginTokenIff | backend/main.py:81-95 | a token is issued exactly when the address is accepted, some user holds its normalised form, the password checks against that user's hash and the user is verified |
| Endpoints.SameAddressSameReply | backend/main.py:53-95 | two spellings of an address that normalise alike get the same login, verification and resend replies, with the same database effects |
| Endpoints.WrongPasswordIs401 | backend/main.py:82-86 | a wrong password for the user holding the normalised address gets 401 whatever the verification status |
| Endpoints.SignupAddsOneUserAndOneCode | backend/main.py:37-46 | a successful signup appends exactly one code, for the new user, and the database stays consistent |
| Endpoints.SignupKeepsValid | backend/main.py:28-50 | signup keeps the database consistent |
| Endpoints.VerifyOtpKeepsValid | backend/main.py:53-65 | verification over the API keeps the database consistent |
| Endpoints.ResendOtpKeepsValid | backend/main.py:68-76 | resending keeps the database consistent |
| Endpoints.SignupVerifyLogin | backend/main.py:28-95 | after signup, login gets 403; verifying with the mailed code within its lifetime succeeds, also under another spelling of the address; then login gets the token; the same code fails a second time |
| Endpoints.ResendAlwaysIssues | backend/main.py:70-75 | for a known email every request, at any time, appends a fresh code that is the user's only live one: there is no cooldown |
| Endpoints.SignupMailFailureCommits | backend/main.py:42-48 | a mail failure answers 500 although the user is stored, so a signup retried with any spelling of the same address gets 400 |
| Endpoints.SchemaRejections | backend/schemas.py:7-39 | a password under six characters, a name over 100, or a code outside four to six characters gets 422 with nothing stored; a well-formed signup body is not rejected |
| Lex.Split | backend/ai_engine.py:10 | `str.split()`: non-empty words without whitespace; lower-case input gives lower-case words |
| Lex.WordLengthIs | backend/ai_engine.py:10 | a word of `str.split()` ends at the first whitespace character, or at the end of the text |
| Lex.SplitWord | backend/ai_engine.py:10 | a non-empty string without whitespace splits into exactly itself |
| Lex.SplitAtSpace | backend/ai_engine.py:10 | every whitespace character separates: the split of `a + c + b` is the split of `a` followed by the split of `b`, so leading, trailing and repeated whitespace yield no empty or merged words |
| Lex.JoinNormalized | backend/ai_engine.py:10 | joining words with single spaces gives a normalized string (no whitespace at the ends, single plain spaces between words) |
| Lex.SplitJoin | backend/ai_engine.py:10 | splitting the join of words gives the words back |
| Lex.JoinSplit | backend/ai_engine.py:10 | a normalized string is the join of its own words |
| Lex.Preprocess | backend/ai_engine.py:8-10 | the result is normalized with no upper case, and its words are the lower-cased words of the input |
| Lex.PreprocessFixedPoints | backend/ai_engine.py:8-10 | preprocessing is idempotent, and leaves a string unchanged exactly when it is normalized and lower-case |
| Lex.Runs | backend/ai_engine.py:15 | the letter runs found are non-empty, letters only, and lower-case in lower-case text |
| Lex.RunsFromSound | backend/ai_engine.py:15 | every run found from a position outside a run is a maximal letter run of the text starting at or after that position |
| Lex.RunsFromComplete | backend/ai_engine.py:15 | every maximal letter run starting at or after a position is found from that position |
| Lex.RunsIff | backend/ai_engine.py:15 | a string is among the runs found exactly when it occurs in the text as a maximal letter run |
| Lex.Tokenize | backend/ai_engine.py:13-15 | every token is at least three lower-case ASCII letters |
| Lex.TokenizeIff | backend/ai_engine.py:13-15 | the tokens are exactly the maximal letter runs of length at least three in the lower-cased text |
| Order.LessTransitive | backend/ai_engine.py:69 | Python string order is transitive |
| Order.LessTotal | backend/ai_engine.py:69 | any two different strings are ordered one way and never both ways |
| Order.Insert | backend/ai_engine.py:69 | inserting into a strictly ascending list keeps it strictly ascending and adds exactly that element |
| Order.SortedSet | backend/ai_engine.py:69 | `sorted` of a set: strictly ascending, with exactly the elements given |
| Order.SortedUnique | backend/ai_engine.py:69 | two strictly ascending lists with the same elements are equal |
| Keywords.AnalyzeResume | backend/ai_engine.py:39-42 | the cleaned text is normalized, without upper case, and keeps the lower-cased words of the input |
| Keywords.TokenList | backend/ai_engine.py:64-65 | the listed words are exactly the tokens of the text |
| Keywords.Select | backend/ai_engine.py:69-75 | the job words that are, or are not, resume words, as the set intersection or difference |
| Keywords.KeepKeywords | backend/ai_engine.py:70 | the stopword and length filter keeps the order and exactly the qualifying words |
| Keywords.TopKeywords | backend/ai_engine.py:67-77 | strictly ascending, at most fifty qualifying words; a qualifying word is left out only from a full list and sorts after every listed word |
| Keywords.Missing | backend/ai_engine.py:67-71 | the job keywords absent from the resume, strictly ascending, at most fifty, and the fifty smallest when more qualify |
| Keywords.Matched | backend/ai_engine.py:73-77 | the job keywords the resume shares, strictly ascending, at most fifty, and the fifty smallest when more qualify |
| Keywords.MissingMatchedDisjoint | backend/ai_engine.py:67-77 | no word is both missing and matched |
| Keywords.TopKeywordsExact | backend/ai_engine.py:67-77 | with fewer than fifty qualifying words, the list is the unique ascending list of exactly those words |
| Keywords.MissingIsSortedDifference | backend/ai_engine.py:67-71 | below fifty, the missing list equals the sorted, filtered job-minus-resume words |
| Keywords.MatchedIsSortedIntersection | backend/ai_engine.py:73-77 | below fifty, the matched list equals the sorted, filtered shared words |
| Keywords.BandOf | backend/ai_engine.py:56-61 | strong above 0.7, moderate above 0.4 up to 0.7, low otherwise (thresholds are the binary64 values of the literals) |
| Keywords.Recommendation | backend/ai_engine.py:56-61 | each band gets its own recommendation text |
| Keywords.RecommendationMonotone | backend/ai_engine.py:56-61 | a higher score never gets a weaker band, and two scores get the same text exactly when they are in the same band |

## Left out

- Network and mail. The HTTP calls, the API client, and the SMTP sending in `send_otp_email` are left out. Server replies, the random code and mail success are oracle inputs.
- The forgot-password server endpoints (`/auth/forgot-password`, `/auth/resend-forgot-otp`, `/auth/verify-forgot-otp`, `/auth/reset-password`) are not part of this model. The backend does not define them, so the client sees their replies only as oracle outputs.
- The signup page's hand-off of a token and expiry to the verification page is left out. The signup response holds neither, and the verification page never reads them.
- bcrypt and JWT are left out. Password checking is an uninterpreted `(password, hash) -> bool` parameter. The access token is an opaque string argument.
- The email-validator rules behind pydantic `EmailStr` (syntax, internationalised domains, normalisation) are left out. They are the `normalize` parameter. The second validation of the stored address when `UserOut` is built is not modelled.
- Environment loading is left out. `OTP_EXPIRY_MINUTES` is fixed at its default of 5.
- The TF-IDF cosine similarity is left out because it is library floating point. The score is an input to `Keywords.BandOf`.
- `generate_interview_questions` is left out: it calls a remote language model.
- `compute_match_score` as a whole is left out; its keyword and band parts are modelled separately. The `match_job` endpoint unpacks the four results into two names, so it fails at run time and is not modelled.
- `/ai/analyze-resume` is modelled only through `Keywords.AnalyzeResume`.
- Unicode case mapping and Unicode letters in `lower()` and the tokenizer are left out. Lower-casing is ASCII only, so a non-ASCII character that Python lower-cases to an ASCII letter (such as the Kelvin sign) is not modelled. `str.split()` whitespace is the exact Python `isspace` set.
- ISO-8601 timestamp parsing, `Date.now`, and the `NaN` produced by an unparsable expiry are left out. Expiries and clocks are integer milliseconds, and an absent expiry is `None`.
- The `setInterval`/`clearInterval` scheduling is left out; a tick is the pure recomputation `ForgotPasswordFlow.Tick`. The alert auto-dismiss timer is also left out.
- The `loading` busy flag and async interleaving are left out. `resendLoading` enters only as the `resendInFlight` argument of the resend gate.
- Page layout, routing, password show/hide, and the Dashboard, ResumeMatch, InterviewQuestions, Login and Signup form glue are left out.
- Database sessions, commit and refresh, column widths other than `otp_code`, and the maintenance scripts are left out. User ids and code ids come from counters in the database value.
- Models.FindByEmail: a seq is used where the database uses an indexed query. Ties cannot arise because emails are unique.
- OtpStore.LatestMatch: SQL leaves the order of rows with equal `expires_at` open. The model picks the earliest such row. Under the consistency invariant at most one row of a user is live, so the choice never matters there.
- Countdown.FormatTime: takes a natural number only, because the page only passes it the non-negative countdown.
- OtpStore.SingleUse: requests are handled one at a time. FastAPI runs these synchronous handlers on a thread pool, and verification reads the matching row and writes it back without a lock. So two concurrent verifications of one code can both succeed. Interleaved handlers are not modelled.
- FormValidation.ValidEmailAddress: ASCII grammar only. A browser may first convert an internationalised domain to punycode and then accept it.
- The `type="email"` value sanitisation (removing line breaks and surrounding ASCII whitespace) is left out. A typed email reaches the page as the element reports it.
- What React does after it is handed an alert it cannot render (the exception and the unmounted tree) is left out. The model stops at the `Unrenderable` alert.
- The `maxLength` cap is applied to the whole value after an edit. Where an insertion in the middle is cut, the browser truncates the inserted text instead. Both keep at most six UTF-16 units.
