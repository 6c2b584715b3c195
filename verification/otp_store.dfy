/**
 The server's code store: issuing a code for a user (which spends every code
 the user still holds) and consuming one that matches, is unused and has not
 expired. The random choice of the code is a parameter.
 */
module OtpStore {
  import opened Common
  import opened Text
  import opened Decimal
  import opened Models

  /** What `randint(100000, 999999)` may return. */
  type OtpPick = k: int | 100000 <= k <= 999999 witness 100000

  /** `generate_otp`: the decimal rendering of the pick, always six digits. */
  function GenerateOtp(pick: OtpPick): (code: string)
    ensures |code| == 6 && AllDigits(code) && code[0] != '0'
    ensures Value(code) == pick
  {
    RenderLength(pick, 6);
    ValueOfRender(pick);
    Render(pick)
  }

  /** Spends one code if it belongs to `uid`; no other field changes. */
  function Spend(o: EmailOtp, uid: nat): (r: EmailOtp)
    ensures o.userId == uid ==> r == o.(isUsed := true)
    ensures o.userId != uid ==> r == o
  {
    if o.userId == uid && !o.isUsed then o.(isUsed := true) else o
  }

  /** The loop over `user.otps`: every code of `uid` ends up used, every other
      row is left as it was. */
  function SpendAll(otps: seq<EmailOtp>, uid: nat): (r: seq<EmailOtp>)
    ensures |r| == |otps|
    ensures forall i :: 0 <= i < |r| ==> r[i] == Spend(otps[i], uid)
    decreases |otps|
  {
    if otps == [] then [] else [Spend(otps[0], uid)] + SpendAll(otps[1..], uid)
  }

  datatype Issued = Issued(db: Db, otp: EmailOtp)

  /** `create_and_store_otp`. */
  function CreateAndStoreOtp(db: Db, uid: nat, pick: OtpPick, now: int): (r: Issued)
    ensures r.otp == EmailOtp(db.nextOtpId, uid, GenerateOtp(pick), now + OtpLifetimeMillis, false)
    ensures r.db.users == db.users && r.db.nextUserId == db.nextUserId
    ensures r.db.nextOtpId == db.nextOtpId + 1
    ensures |r.db.otps| == |db.otps| + 1 && r.db.otps[|db.otps|] == r.otp
    // other users' rows are untouched
    ensures forall i :: 0 <= i < |db.otps| && db.otps[i].userId != uid ==> r.db.otps[i] == db.otps[i]
    // this user's earlier rows are spent and nothing else about them changes
    ensures forall i :: 0 <= i < |db.otps| && db.otps[i].userId == uid ==> r.db.otps[i] == db.otps[i].(isUsed := true)
    // the new code is the only live code of the user
    ensures forall i :: 0 <= i < |r.db.otps| && LiveFor(r.db.otps[i], uid) ==> i == |db.otps|
  {
    var otp := EmailOtp(db.nextOtpId, uid, GenerateOtp(pick), now + OtpLifetimeMillis, false);
    Issued(db.(otps := SpendAll(db.otps, uid) + [otp], nextOtpId := db.nextOtpId + 1), otp)
  }

  /** The filter of `verify_otp_code`. */
  predicate Matches(o: EmailOtp, uid: nat, code: string, now: int) {
    o.userId == uid && o.otpCode == code && !o.isUsed && o.expiresAt > now
  }

  /** `.order_by(expires_at.desc()).first()` over the matching rows: the matching
      row with the latest expiry; among equal expiries, whose order the query leaves
      open, the earliest row. */
  function LatestMatch(otps: seq<EmailOtp>, uid: nat, code: string, now: int): (r: Option<nat>)
    ensures r.None? <==> forall i :: 0 <= i < |otps| ==> !Matches(otps[i], uid, code, now)
    ensures r.Some? ==> r.value < |otps| && Matches(otps[r.value], uid, code, now)
    ensures r.Some? ==> forall j :: 0 <= j < |otps| && Matches(otps[j], uid, code, now) ==>
                          otps[j].expiresAt <= otps[r.value].expiresAt
    ensures r.Some? ==> forall j :: 0 <= j < r.value && Matches(otps[j], uid, code, now) ==>
                          otps[j].expiresAt < otps[r.value].expiresAt
    decreases |otps|
  {
    if otps == [] then None
    else
      var last := |otps| - 1;
      var earlier := LatestMatch(otps[..last], uid, code, now);
      if !Matches(otps[last], uid, code, now) then earlier
      else if earlier.Some? && otps[last].expiresAt <= otps[earlier.value].expiresAt then earlier
      else Some(last)
  }

  /** Marks the user row(s) with this id verified. */
  function MarkVerified(users: seq<User>, uid: nat): (r: seq<User>)
    ensures |r| == |users|
    ensures forall i :: 0 <= i < |r| && users[i].id == uid ==> r[i] == users[i].(isEmailVerified := true)
    ensures forall i :: 0 <= i < |r| && users[i].id != uid ==> r[i] == users[i]
  {
    seq(|users|, i requires 0 <= i < |users| =>
      if users[i].id == uid then users[i].(isEmailVerified := true) else users[i])
  }

  datatype Verdict = Verdict(db: Db, ok: bool)

  /** `verify_otp_code`. */
  function VerifyOtpCode(db: Db, uid: nat, code: string, now: int): (v: Verdict)
    ensures !v.ok <==> forall i :: 0 <= i < |db.otps| ==> !Matches(db.otps[i], uid, code, now)
    ensures !v.ok ==> v.db == db
    ensures v.ok ==>
              var k := LatestMatch(db.otps, uid, code, now).value;
              && v.db.otps == db.otps[k := db.otps[k].(isUsed := true)]
              && v.db.users == MarkVerified(db.users, uid)
              && v.db.nextUserId == db.nextUserId && v.db.nextOtpId == db.nextOtpId
  {
    match LatestMatch(db.otps, uid, code, now)
    case None => Verdict(db, false)
    case Some(k) =>
      var otps := db.otps[k := db.otps[k].(isUsed := true)];
      Verdict(db.(otps := otps, users := MarkVerified(db.users, uid)), true)
  }

  /** Spending a user's codes and appending a fresh live one keeps the code rows
      distinct. */
  lemma IssueKeepsOtpsDistinct(db: Db, uid: nat, pick: OtpPick, now: int)
    requires OtpsDistinct(db.otps)
    requires forall i :: 0 <= i < |db.otps| ==> db.otps[i].id < db.nextOtpId
    ensures OtpsDistinct(CreateAndStoreOtp(db, uid, pick, now).db.otps)
  {
    var r := CreateAndStoreOtp(db, uid, pick, now).db;
    forall i, j | 0 <= i < j < |r.otps|
      ensures r.otps[i].id != r.otps[j].id
      ensures !r.otps[i].isUsed && !r.otps[j].isUsed ==> r.otps[i].userId != r.otps[j].userId
    {
      if j == |db.otps| {
        assert r.otps[i].id == db.otps[i].id < db.nextOtpId;
        if !r.otps[i].isUsed {
          assert r.otps[i] == db.otps[i] && db.otps[i].userId != uid;
        }
      } else {
        assert r.otps[i].id == db.otps[i].id && r.otps[j].id == db.otps[j].id;
      }
    }
  }

  /** Issuing a code keeps the tables consistent. */
  lemma IssueKeepsValid(db: Db, uid: nat, pick: OtpPick, now: int)
    requires Valid(db) && uid in UserIds(db)
    ensures Valid(CreateAndStoreOtp(db, uid, pick, now).db)
  {
    var r := CreateAndStoreOtp(db, uid, pick, now).db;
    IssueKeepsOtpsDistinct(db, uid, pick, now);
    assert UserIds(r) == UserIds(db);
    forall i | 0 <= i < |r.otps|
      ensures r.otps[i].id < r.nextOtpId && r.otps[i].userId in UserIds(r) && |r.otps[i].otpCode| <= OtpCodeWidth
    {
      if i < |db.otps| {
        assert r.otps[i].id == db.otps[i].id && r.otps[i].userId == db.otps[i].userId;
        assert r.otps[i].otpCode == db.otps[i].otpCode;
      }
    }
  }

  /** Marking users verified changes neither ids nor e-mails. */
  lemma MarkVerifiedKeepsKeys(db: Db, uid: nat)
    requires UsersDistinct(db.users)
    ensures var users := MarkVerified(db.users, uid);
            && UsersDistinct(users)
            && (forall i :: 0 <= i < |users| ==> users[i].id == db.users[i].id)
            && UserIds(db.(users := users)) == UserIds(db)
  {
    var r := db.(users := MarkVerified(db.users, uid));
    assert forall i :: 0 <= i < |r.users| ==> r.users[i].id == db.users[i].id && r.users[i].email == db.users[i].email;
    forall x | x in UserIds(db) ensures x in UserIds(r) {
      var i :| 0 <= i < |db.users| && db.users[i].id == x;
      assert r.users[i].id == x;
    }
    forall x | x in UserIds(r) ensures x in UserIds(db) {
      var i :| 0 <= i < |r.users| && r.users[i].id == x;
      assert db.users[i].id == x;
    }
  }

  /** Spending one code row keeps the code rows distinct. */
  lemma SpendOneKeepsOtpsDistinct(otps: seq<EmailOtp>, k: nat)
    requires OtpsDistinct(otps) && k < |otps|
    ensures OtpsDistinct(otps[k := otps[k].(isUsed := true)])
  {
  }

  /** Consuming a code keeps the tables consistent. */
  lemma VerifyKeepsValid(db: Db, uid: nat, code: string, now: int)
    requires Valid(db)
    ensures Valid(VerifyOtpCode(db, uid, code, now).db)
  {
    var v := VerifyOtpCode(db, uid, code, now);
    if v.ok {
      var k := LatestMatch(db.otps, uid, code, now).value;
      MarkVerifiedKeepsKeys(db, uid);
      SpendOneKeepsOtpsDistinct(db.otps, k);
      assert forall i :: 0 <= i < |v.db.otps| ==> v.db.otps[i].id == db.otps[i].id && v.db.otps[i].userId == db.otps[i].userId && v.db.otps[i].otpCode == db.otps[i].otpCode;
    }
  }

  /** A code is single use: once a verification succeeds the user holds no live
      code, so every later verification for that user fails, whatever the code
      and whatever the time. */
  lemma SingleUse(db: Db, uid: nat, code: string, now: int, code2: string, later: int)
    requires Valid(db) && VerifyOtpCode(db, uid, code, now).ok
    ensures !VerifyOtpCode(VerifyOtpCode(db, uid, code, now).db, uid, code2, later).ok
  {
    var k := LatestMatch(db.otps, uid, code, now).value;
    var r := VerifyOtpCode(db, uid, code, now).db;
    forall i | 0 <= i < |r.otps|
      ensures !Matches(r.otps[i], uid, code2, later)
    {
      if i != k && r.otps[i].userId == uid && !r.otps[i].isUsed {
        assert false;
      }
    }
  }

  /** A freshly issued code is accepted until its lifetime has passed. */
  lemma IssuedCodeAccepted(db: Db, uid: nat, pick: OtpPick, now: int, at: int)
    requires now <= at < now + OtpLifetimeMillis
    ensures VerifyOtpCode(CreateAndStoreOtp(db, uid, pick, now).db, uid, GenerateOtp(pick), at).ok
  {
    var r := CreateAndStoreOtp(db, uid, pick, now).db;
    assert Matches(r.otps[|db.otps|], uid, GenerateOtp(pick), at);
  }

  /** Expiry is strict and spends nothing: from the instant the lifetime of the
      newest code has passed, no code of that user verifies any more. */
  lemma IssuedCodeExpires(db: Db, uid: nat, pick: OtpPick, now: int, at: int, code: string)
    requires at >= now + OtpLifetimeMillis
    ensures !VerifyOtpCode(CreateAndStoreOtp(db, uid, pick, now).db, uid, code, at).ok
  {
  }

  /** Issuing a code revokes the earlier ones: afterwards only the new code verifies. */
  lemma OnlyNewestCodeAccepted(db: Db, uid: nat, pick: OtpPick, now: int, at: int, code: string)
    requires code != GenerateOtp(pick)
    ensures !VerifyOtpCode(CreateAndStoreOtp(db, uid, pick, now).db, uid, code, at).ok
  {
  }
}
