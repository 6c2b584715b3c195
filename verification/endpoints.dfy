/**
 The outcome rules of the four authentication endpoints, as transitions over
 the database value. Request validation runs first (a 422 reply with nothing
 changed). Password hashing, password checking, token signing, the random code
 and the delivery of the code by mail are parameters.
 */
module Endpoints {
  import opened Common
  import opened Models
  import opened OtpStore
  import opened Schemas

  datatype UserOut = UserOut(id: nat, name: string, email: string, isEmailVerified: bool, createdAt: int)

  datatype Response =
    | Created(user: UserOut)              // 201 with the new user
    | Message(text: string)               // 200 {"message": ...}
    | Authorized(token: Token)              // 200 with a bearer token
    | HttpError(status: nat, detail: string)
    | Unprocessable                       // 422: the request body failed validation
    | ServerError                         // 500: an exception escaped the handler

  datatype Reply = Reply(db: Db, response: Response)

  function Out(u: User): UserOut {
    UserOut(u.id, u.name, u.email, u.isEmailVerified, u.createdAt)
  }

  predicate Registered(db: Db, email: string) {
    exists i :: 0 <= i < |db.users| && db.users[i].email == email
  }

  /** `POST /auth/signup`. The email is looked up and stored in its normalised
      form. The user row is committed before the code is mailed, so a mail failure
      reports a server error with the user and code already stored. */
  function Signup(db: Db, req: UserCreate, normalize: string -> Option<string>, passwordHash: string,
                  pick: OtpPick, now: int, mailSent: bool): (r: Reply)
    ensures !ValidUserCreate(req, normalize) ==> r == Reply(db, Unprocessable)
    ensures ValidUserCreate(req, normalize) && Registered(db, normalize(req.email).value) ==>
              r == Reply(db, HttpError(400, "Email already registered"))
    ensures ValidUserCreate(req, normalize) && !Registered(db, normalize(req.email).value) ==>
              && r.db.users == db.users + [NewUser(db.nextUserId, req.name, normalize(req.email).value, passwordHash, now)]
              && r.db.nextUserId == db.nextUserId + 1
              && |r.db.otps| == |db.otps| + 1
              && r.db.otps[|db.otps|] == EmailOtp(db.nextOtpId, db.nextUserId, GenerateOtp(pick),
                                                  now + OtpLifetimeMillis, false)
              && r.response == (if mailSent then Created(Out(r.db.users[|db.users|])) else ServerError)
  {
    if !ValidUserCreate(req, normalize) then Reply(db, Unprocessable)
    else
      var email := normalize(req.email).value;
      if FindByEmail(db.users, email).Some? then Reply(db, HttpError(400, "Email already registered"))
      else
        var user := NewUser(db.nextUserId, req.name, email, passwordHash, now);
        var withUser := db.(users := db.users + [user], nextUserId := db.nextUserId + 1);
        var issued := CreateAndStoreOtp(withUser, user.id, pick, now);
        Reply(issued.db, if mailSent then Created(Out(user)) else ServerError)
  }

  /** `POST /auth/verify-otp`. */
  function VerifyOtp(db: Db, req: OtpVerifyRequest, normalize: string -> Option<string>, now: int): (r: Reply)
    ensures !ValidOtpVerify(req, normalize) ==> r == Reply(db, Unprocessable)
    ensures ValidOtpVerify(req, normalize) && !Registered(db, normalize(req.email).value) ==>
              r == Reply(db, HttpError(404, "User not found"))
    ensures ValidOtpVerify(req, normalize) && Registered(db, normalize(req.email).value) ==>
              var uid := db.users[FindByEmail(db.users, normalize(req.email).value).value].id;
              var v := VerifyOtpCode(db, uid, req.otp, now);
              r == (if v.ok then Reply(v.db, Message("OTP verified successfully"))
                    else Reply(db, HttpError(400, "Invalid or expired OTP")))
  {
    if !ValidOtpVerify(req, normalize) then Reply(db, Unprocessable)
    else match FindByEmail(db.users, normalize(req.email).value)
      case None => Reply(db, HttpError(404, "User not found"))
      case Some(k) =>
        var v := VerifyOtpCode(db, db.users[k].id, req.otp, now);
        if v.ok then Reply(v.db, Message("OTP verified successfully"))
        else Reply(db, HttpError(400, "Invalid or expired OTP"))
  }

  /** `POST /auth/resend-otp`: no cooldown; every request for a known email issues
      a fresh code. */
  function ResendOtp(db: Db, req: ResendOtpRequest, normalize: string -> Option<string>,
                     pick: OtpPick, now: int, mailSent: bool): (r: Reply)
    ensures !ValidResend(req, normalize) ==> r == Reply(db, Unprocessable)
    ensures ValidResend(req, normalize) && !Registered(db, normalize(req.email).value) ==>
              r == Reply(db, HttpError(404, "User not found"))
    ensures ValidResend(req, normalize) && Registered(db, normalize(req.email).value) ==>
              var uid := db.users[FindByEmail(db.users, normalize(req.email).value).value].id;
              && r.db == CreateAndStoreOtp(db, uid, pick, now).db
              && r.response == (if mailSent then Message("OTP resent successfully") else ServerError)
  {
    if !ValidResend(req, normalize) then Reply(db, Unprocessable)
    else match FindByEmail(db.users, normalize(req.email).value)
      case None => Reply(db, HttpError(404, "User not found"))
      case Some(k) =>
        var issued := CreateAndStoreOtp(db, db.users[k].id, pick, now);
        Reply(issued.db, if mailSent then Message("OTP resent successfully") else ServerError)
  }

  /** `POST /auth/login`. The credentials are checked before the verification flag. */
  function Login(db: Db, req: LoginRequest, normalize: string -> Option<string>,
                 checkPassword: (string, string) -> bool, accessToken: string): (r: Reply)
    ensures r.db == db
    ensures !ValidLogin(req, normalize) ==> r.response == Unprocessable
    ensures ValidLogin(req, normalize) && !Registered(db, normalize(req.email).value) ==>
              r.response == HttpError(401, "Invalid credentials")
    ensures ValidLogin(req, normalize) && Registered(db, normalize(req.email).value) ==>
              var u := db.users[FindByEmail(db.users, normalize(req.email).value).value];
              r.response == (if !checkPassword(req.password, u.passwordHash) then HttpError(401, "Invalid credentials")
                             else if !u.isEmailVerified then HttpError(403, "Email not verified. Please verify OTP.")
                             else Authorized(BearerToken(accessToken)))
  {
    if !ValidLogin(req, normalize) then Reply(db, Unprocessable)
    else match FindByEmail(db.users, normalize(req.email).value)
      case None => Reply(db, HttpError(401, "Invalid credentials"))
      case Some(k) =>
        var u := db.users[k];
        if !checkPassword(req.password, u.passwordHash) then Reply(db, HttpError(401, "Invalid credentials"))
        else if !u.isEmailVerified then Reply(db, HttpError(403, "Email not verified. Please verify OTP."))
        else Reply(db, Authorized(BearerToken(accessToken)))
  }

  /** Login hands out a token exactly when the email is accepted and its
      normalised form belongs to a user whose password checks out and whose email
      is verified. */
  lemma LoginTokenIff(db: Db, req: LoginRequest, normalize: string -> Option<string>,
                      checkPassword: (string, string) -> bool, accessToken: string)
    requires Valid(db)
    ensures Login(db, req, normalize, checkPassword, accessToken).response.Authorized? <==>
            && normalize(req.email).Some?
            && exists i :: 0 <= i < |db.users| && db.users[i].email == normalize(req.email).value
                          && checkPassword(req.password, db.users[i].passwordHash)
                          && db.users[i].isEmailVerified
  {
    if normalize(req.email).Some? && Registered(db, normalize(req.email).value) {
      var e := normalize(req.email).value;
      var k := FindByEmail(db.users, e).value;
      forall i | 0 <= i < |db.users| && db.users[i].email == e
        ensures i == k
      {
        FindByEmailUnique(db, e, i);
      }
    }
  }

  /** A wrong password is reported as 401 whatever the verification status, so
      the 403 reply never confirms a password guess wrong. */
  lemma WrongPasswordIs401(db: Db, req: LoginRequest, normalize: string -> Option<string>,
                           checkPassword: (string, string) -> bool, accessToken: string, i: nat)
    requires Valid(db)
    requires i < |db.users| && normalize(req.email) == Some(db.users[i].email)
    requires !checkPassword(req.password, db.users[i].passwordHash)
    ensures Login(db, req, normalize, checkPassword, accessToken).response == HttpError(401, "Invalid credentials")
  {
    FindByEmailUnique(db, db.users[i].email, i);
  }

  /** Requests whose emails normalise to the same address are answered alike:
      the raw spelling (outer whitespace, a display name, the case of the domain)
      never matters once the validator has accepted it. */
  lemma SameAddressSameReply(db: Db, normalize: string -> Option<string>, e1: string, e2: string,
                             password: string, otp: string, checkPassword: (string, string) -> bool,
                             accessToken: string, pick: OtpPick, now: int, mailSent: bool)
    requires normalize(e1) == normalize(e2)
    ensures Login(db, LoginRequest(e1, password), normalize, checkPassword, accessToken) ==
            Login(db, LoginRequest(e2, password), normalize, checkPassword, accessToken)
    ensures VerifyOtp(db, OtpVerifyRequest(e1, otp), normalize, now) ==
            VerifyOtp(db, OtpVerifyRequest(e2, otp), normalize, now)
    ensures ResendOtp(db, ResendOtpRequest(e1), normalize, pick, now, mailSent) ==
            ResendOtp(db, ResendOtpRequest(e2), normalize, pick, now, mailSent)
  {
  }

  /** A new user row's id is fresh, so it owns no code yet. */
  lemma {:induction false} FreshIdOwnsNothing(db: Db)
    requires Valid(db)
    ensures forall i :: 0 <= i < |db.otps| ==> db.otps[i].userId != db.nextUserId
  {
    forall i | 0 <= i < |db.otps|
      ensures db.otps[i].userId != db.nextUserId
    {
      assert db.otps[i].userId in UserIds(db);
      var u :| u in db.users && u.id == db.otps[i].userId;
    }
  }

  /** Inserting a user row with the next id and an unused email keeps the
      database consistent. */
  lemma AddUserKeepsValid(db: Db, user: User)
    requires Valid(db) && user.id == db.nextUserId && !Registered(db, user.email)
    ensures var withUser := db.(users := db.users + [user], nextUserId := db.nextUserId + 1);
            Valid(withUser) && user.id in UserIds(withUser)
  {
    var withUser := db.(users := db.users + [user], nextUserId := db.nextUserId + 1);
    assert UserIds(withUser) == UserIds(db) + {user.id};
  }

  /** A successful signup adds exactly one user and exactly one code, for that
      user; every earlier row is kept as it was. */
  lemma SignupAddsOneUserAndOneCode(db: Db, req: UserCreate, normalize: string -> Option<string>, passwordHash: string,
                                    pick: OtpPick, now: int, mailSent: bool)
    requires Valid(db) && ValidUserCreate(req, normalize) && !Registered(db, normalize(req.email).value)
    ensures var r := Signup(db, req, normalize, passwordHash, pick, now, mailSent);
            && r.db.otps == db.otps + [EmailOtp(db.nextOtpId, db.nextUserId, GenerateOtp(pick),
                                                now + OtpLifetimeMillis, false)]
            && Valid(r.db)
  {
    FreshIdOwnsNothing(db);
    var user := NewUser(db.nextUserId, req.name, normalize(req.email).value, passwordHash, now);
    AddUserKeepsValid(db, user);
    var withUser := db.(users := db.users + [user], nextUserId := db.nextUserId + 1);
    IssueKeepsValid(withUser, user.id, pick, now);
    var r := Signup(db, req, normalize, passwordHash, pick, now, mailSent);
    assert r.db.otps == db.otps + [EmailOtp(db.nextOtpId, db.nextUserId, GenerateOtp(pick),
                                            now + OtpLifetimeMillis, false)];
  }

  /** Signing up keeps the database consistent. */
  lemma SignupKeepsValid(db: Db, req: UserCreate, normalize: string -> Option<string>, passwordHash: string,
                         pick: OtpPick, now: int, mailSent: bool)
    requires Valid(db)
    ensures Valid(Signup(db, req, normalize, passwordHash, pick, now, mailSent).db)
  {
    if ValidUserCreate(req, normalize) && !Registered(db, normalize(req.email).value) {
      SignupAddsOneUserAndOneCode(db, req, normalize, passwordHash, pick, now, mailSent);
    }
  }

  /** Verifying a code over the API keeps the database consistent. */
  lemma VerifyOtpKeepsValid(db: Db, req: OtpVerifyRequest, normalize: string -> Option<string>, now: int)
    requires Valid(db)
    ensures Valid(VerifyOtp(db, req, normalize, now).db)
  {
    if ValidOtpVerify(req, normalize) && Registered(db, normalize(req.email).value) {
      VerifyKeepsValid(db, db.users[FindByEmail(db.users, normalize(req.email).value).value].id, req.otp, now);
    }
  }

  /** Resending a code keeps the database consistent. */
  lemma ResendOtpKeepsValid(db: Db, req: ResendOtpRequest, normalize: string -> Option<string>,
                            pick: OtpPick, now: int, mailSent: bool)
    requires Valid(db)
    ensures Valid(ResendOtp(db, req, normalize, pick, now, mailSent).db)
  {
    if ValidResend(req, normalize) && Registered(db, normalize(req.email).value) {
      var u := db.users[FindByEmail(db.users, normalize(req.email).value).value];
      assert u in db.users;
      IssueKeepsValid(db, u.id, pick, now);
    }
  }

  /** The whole server-side story: a new user cannot log in before verifying
      (403), verifies with the mailed code within its lifetime, and can then log
      in; the same code is refused the second time. The later requests may spell
      the email differently, as long as it normalises to the same address. */
  lemma SignupVerifyLogin(db: Db, req: UserCreate, normalize: string -> Option<string>, passwordHash: string,
                          pick: OtpPick, now: int, at: int, other: string,
                          checkPassword: (string, string) -> bool, accessToken: string)
    requires Valid(db) && ValidUserCreate(req, normalize) && !Registered(db, normalize(req.email).value)
    requires normalize(other) == normalize(req.email)
    requires checkPassword(req.password, passwordHash)
    requires now <= at < now + OtpLifetimeMillis
    ensures var s := Signup(db, req, normalize, passwordHash, pick, now, true);
            var login := LoginRequest(other, req.password);
            var code := OtpVerifyRequest(other, GenerateOtp(pick));
            var v := VerifyOtp(s.db, code, normalize, at);
            && s.response.Created?
            && Login(s.db, login, normalize, checkPassword, accessToken).response ==
               HttpError(403, "Email not verified. Please verify OTP.")
            && v.response == Message("OTP verified successfully")
            && Login(v.db, login, normalize, checkPassword, accessToken).response == Authorized(BearerToken(accessToken))
            && VerifyOtp(v.db, code, normalize, at).response == HttpError(400, "Invalid or expired OTP")
  {
    var e := normalize(req.email).value;
    var s := Signup(db, req, normalize, passwordHash, pick, now, true);
    SignupAddsOneUserAndOneCode(db, req, normalize, passwordHash, pick, now, true);
    var k := |db.users|;
    assert s.db.users[k].email == e;
    FindByEmailUnique(s.db, e, k);
    var uid := db.nextUserId;
    assert s.db.users[k].id == uid;
    var withUser := db.(users := db.users + [NewUser(uid, req.name, e, passwordHash, now)],
                        nextUserId := db.nextUserId + 1);
    IssuedCodeAccepted(withUser, uid, pick, now, at);
    var code := GenerateOtp(pick);
    var vv := VerifyOtpCode(s.db, uid, code, at);
    assert vv.ok;
    VerifyKeepsValid(s.db, uid, code, at);
    assert vv.db.users[k].email == e;
    assert vv.db.users[k].isEmailVerified;
    FindByEmailUnique(vv.db, e, k);
    SingleUse(s.db, uid, code, at, code, at);
  }

  /** Resending has no server-side cooldown: for a registered email, a request at
      any instant leaves exactly one live code for the user, the one just issued. */
  lemma ResendAlwaysIssues(db: Db, req: ResendOtpRequest, normalize: string -> Option<string>,
                           pick: OtpPick, now: int, mailSent: bool)
    requires ValidResend(req, normalize) && Registered(db, normalize(req.email).value)
    ensures var r := ResendOtp(db, req, normalize, pick, now, mailSent);
            var uid := db.users[FindByEmail(db.users, normalize(req.email).value).value].id;
            && |r.db.otps| == |db.otps| + 1
            && r.db.otps[|db.otps|] == EmailOtp(db.nextOtpId, uid, GenerateOtp(pick), now + OtpLifetimeMillis, false)
            && forall i :: 0 <= i < |r.db.otps| && LiveFor(r.db.otps[i], uid) ==> i == |db.otps|
  {
  }

  /** The user row is committed before the mail goes out: when the mail fails the
      client sees a server error, yet the address is taken and a signup with any
      email normalising to it, retried, is refused as a duplicate. */
  lemma SignupMailFailureCommits(db: Db, req: UserCreate, normalize: string -> Option<string>, passwordHash: string,
                                 pick: OtpPick, now: int, retry: UserCreate, pick2: OtpPick, later: int, mailSent: bool)
    requires ValidUserCreate(req, normalize) && !Registered(db, normalize(req.email).value)
    requires ValidUserCreate(retry, normalize) && normalize(retry.email) == normalize(req.email)
    ensures var r := Signup(db, req, normalize, passwordHash, pick, now, false);
            && r.response == ServerError
            && Registered(r.db, normalize(req.email).value)
            && Signup(r.db, retry, normalize, passwordHash, pick2, later, mailSent) ==
               Reply(r.db, HttpError(400, "Email already registered"))
  {
    var r := Signup(db, req, normalize, passwordHash, pick, now, false);
    assert r.db.users[|db.users|].email == normalize(req.email).value;
  }

  /** The request models reject before any handler runs: a short password or an
      over-long name at signup, and a code outside four to six characters at
      verification, each get 422 with nothing stored. */
  lemma SchemaRejections(db: Db, normalize: string -> Option<string>, signup: UserCreate, passwordHash: string,
                         pick: OtpPick, now: int, mailSent: bool, verify: OtpVerifyRequest)
    ensures |signup.password| < PasswordMinLength || |signup.name| > NameMaxLength ==>
              Signup(db, signup, normalize, passwordHash, pick, now, mailSent) == Reply(db, Unprocessable)
    ensures |verify.otp| < OtpMinLength || |verify.otp| > OtpMaxLength ==>
              VerifyOtp(db, verify, normalize, now) == Reply(db, Unprocessable)
    ensures normalize(signup.email).Some? && |signup.name| <= NameMaxLength && |signup.password| >= PasswordMinLength ==>
              Signup(db, signup, normalize, passwordHash, pick, now, mailSent).response != Unprocessable
  {
  }
}
