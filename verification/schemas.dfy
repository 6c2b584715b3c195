/**
 The request and response shapes of the authentication API and the field
 constraints the request models enforce before a handler runs. An `EmailStr`
 field is checked and rewritten by an external validator, passed in as
 `normalize`: `None` for a string it rejects, otherwise the normalised address
 the handler receives in place of the raw one.
 */
module Schemas {
  import opened Common

  const NameMaxLength: nat := 100
  const PasswordMinLength: nat := 6
  const OtpMinLength: nat := 4
  const OtpMaxLength: nat := 6

  datatype UserCreate = UserCreate(name: string, email: string, password: string)
  datatype OtpVerifyRequest = OtpVerifyRequest(email: string, otp: string)
  datatype ResendOtpRequest = ResendOtpRequest(email: string)
  datatype LoginRequest = LoginRequest(email: string, password: string)

  /** `UserBase`: a name of at most 100 characters and an email address. */
  predicate ValidUserBase(name: string, email: string, normalize: string -> Option<string>) {
    |name| <= NameMaxLength && normalize(email).Some?
  }

  /** `UserCreate`: a valid `UserBase` and a password of at least six characters. */
  predicate ValidUserCreate(req: UserCreate, normalize: string -> Option<string>) {
    ValidUserBase(req.name, req.email, normalize) && |req.password| >= PasswordMinLength
  }

  /** `OTPVerifyRequest`: an email address and a code of four to six characters. */
  predicate ValidOtpVerify(req: OtpVerifyRequest, normalize: string -> Option<string>) {
    normalize(req.email).Some? && OtpMinLength <= |req.otp| <= OtpMaxLength
  }

  predicate ValidResend(req: ResendOtpRequest, normalize: string -> Option<string>) {
    normalize(req.email).Some?
  }

  predicate ValidLogin(req: LoginRequest, normalize: string -> Option<string>) {
    normalize(req.email).Some?
  }

  datatype Token = Token(accessToken: string, tokenType: string)

  /** `Token(access_token=...)`: the token type takes its default. */
  function BearerToken(accessToken: string): (t: Token)
    ensures t.accessToken == accessToken && t.tokenType == "bearer"
  {
    Token(accessToken, "bearer")
  }

  datatype MatchScoreResponse = MatchScoreResponse(score: real, recommendation: Option<string>)

  /** `MatchScoreResponse(score=...)`: the recommendation takes its default. */
  function ScoreOnly(score: real): (r: MatchScoreResponse)
    ensures r.score == score && r.recommendation.None?
  {
    MatchScoreResponse(score, None)
  }
}
