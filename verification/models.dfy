/**
 The two tables of the server: users and the one-time codes issued to them.
 The database is a value: the rows of each table in insertion order, plus the
 next identifier each auto-increment column hands out. Times are integer
 milliseconds since the epoch.
 */
module Models {
  import opened Common

  /** `OTP_EXPIRY_MINUTES`, at its default value. */
  const OtpExpiryMinutes: nat := 5
  const OtpLifetimeMillis: nat := OtpExpiryMinutes * 60 * 1000
  /** Width of the `otp_code` column. */
  const OtpCodeWidth: nat := 6

  datatype User = User(
    id: nat,
    name: string,
    email: string,
    passwordHash: string,
    isEmailVerified: bool,
    createdAt: int)

  datatype EmailOtp = EmailOtp(
    id: nat,
    userId: nat,
    otpCode: string,
    expiresAt: int,
    isUsed: bool)

  datatype Db = Db(users: seq<User>, otps: seq<EmailOtp>, nextUserId: nat, nextOtpId: nat)

  /** A fresh database. */
  function Empty(): (db: Db)
    ensures Valid(db) && |db.users| == 0 && |db.otps| == 0
  {
    Db([], [], 1, 1)
  }

  /** A user row as inserted: not yet verified, created now. */
  function NewUser(id: nat, name: string, email: string, passwordHash: string, now: int): (u: User)
    ensures u.id == id && u.name == name && u.email == email && u.passwordHash == passwordHash
    ensures !u.isEmailVerified && u.createdAt == now
  {
    User(id, name, email, passwordHash, false, now)
  }

  function UserIds(db: Db): set<nat> {
    set u | u in db.users :: u.id
  }

  /** An unused code belonging to `uid`. */
  predicate LiveFor(o: EmailOtp, uid: nat) {
    o.userId == uid && !o.isUsed
  }

  /** The table constraints, and the at-most-one-live-code discipline the code
      store keeps. */
  predicate Valid(db: Db) {
    // `email` is unique and `id` is the primary key, below the next id handed out
    && UsersDistinct(db.users)
    && (forall i :: 0 <= i < |db.users| ==> db.users[i].id < db.nextUserId)
    // code rows have distinct primary keys and at most one of a user's codes is live
    && OtpsDistinct(db.otps)
    // every code row has an id already handed out, an existing owner and a code that fits its column
    && (forall i :: 0 <= i < |db.otps| ==> db.otps[i].id < db.nextOtpId)
    && (forall i :: 0 <= i < |db.otps| ==> db.otps[i].userId in UserIds(db))
    && (forall i :: 0 <= i < |db.otps| ==> |db.otps[i].otpCode| <= OtpCodeWidth)
  }

  /** The first user row with this email, as `.filter(email == e).first()`. */
  function FindByEmail(users: seq<User>, email: string): (r: Option<nat>)
    ensures r.None? <==> forall i :: 0 <= i < |users| ==> users[i].email != email
    ensures r.Some? ==> r.value < |users| && users[r.value].email == email
    ensures r.Some? ==> forall i :: 0 <= i < r.value ==> users[i].email != email
    decreases |users|
  {
    if users == [] then None
    else if users[0].email == email then Some(0)
    else match FindByEmail(users[1..], email)
      case None => None
      case Some(k) => Some(k + 1)
  }

  /** With unique emails, the row found is the only row with that email. */
  lemma FindByEmailUnique(db: Db, email: string, i: nat)
    requires Valid(db) && i < |db.users| && db.users[i].email == email
    ensures FindByEmail(db.users, email) == Some(i)
  {
  }

  /** Deleting a user: the `delete-orphan` cascade on `User.otps` and the
      `ON DELETE CASCADE` foreign key remove every code row of that user. */
  function DeleteUser(db: Db, uid: nat): (r: Db)
    ensures forall u :: u in r.users <==> u in db.users && u.id != uid
    ensures forall o :: o in r.otps <==> o in db.otps && o.userId != uid
    ensures r.nextUserId == db.nextUserId && r.nextOtpId == db.nextOtpId
  {
    Db(UsersExcept(db.users, uid), OtpsExcept(db.otps, uid), db.nextUserId, db.nextOtpId)
  }

  function UsersExcept(users: seq<User>, uid: nat): (r: seq<User>)
    ensures forall u :: u in r <==> u in users && u.id != uid
    decreases |users|
  {
    if users == [] then []
    else if users[0].id == uid then UsersExcept(users[1..], uid)
    else [users[0]] + UsersExcept(users[1..], uid)
  }

  function OtpsExcept(otps: seq<EmailOtp>, uid: nat): (r: seq<EmailOtp>)
    ensures forall o :: o in r <==> o in otps && o.userId != uid
    decreases |otps|
  {
    if otps == [] then []
    else if otps[0].userId == uid then OtpsExcept(otps[1..], uid)
    else [otps[0]] + OtpsExcept(otps[1..], uid)
  }

  predicate UsersDistinct(users: seq<User>) {
    forall i, j :: 0 <= i < j < |users| ==> users[i].email != users[j].email && users[i].id != users[j].id
  }

  predicate OtpsDistinct(otps: seq<EmailOtp>) {
    forall i, j :: 0 <= i < j < |otps| ==>
      && otps[i].id != otps[j].id
      && (!otps[i].isUsed && !otps[j].isUsed ==> otps[i].userId != otps[j].userId)
  }

  lemma {:induction false} UsersExceptDistinct(users: seq<User>, uid: nat)
    requires UsersDistinct(users)
    ensures UsersDistinct(UsersExcept(users, uid))
    decreases |users|
  {
    if users != [] {
      UsersExceptDistinct(users[1..], uid);
      var rest := UsersExcept(users[1..], uid);
      forall j | 0 <= j < |rest|
        ensures users[0].email != rest[j].email && users[0].id != rest[j].id
      {
        var k :| 0 <= k < |users[1..]| && users[1..][k] == rest[j];
        assert users[k + 1] == rest[j];
      }
    }
  }

  lemma {:induction false} OtpsExceptDistinct(otps: seq<EmailOtp>, uid: nat)
    requires OtpsDistinct(otps)
    ensures OtpsDistinct(OtpsExcept(otps, uid))
    decreases |otps|
  {
    if otps != [] {
      OtpsExceptDistinct(otps[1..], uid);
      var rest := OtpsExcept(otps[1..], uid);
      forall j | 0 <= j < |rest|
        ensures otps[0].id != rest[j].id
        ensures !otps[0].isUsed && !rest[j].isUsed ==> otps[0].userId != rest[j].userId
      {
        var k :| 0 <= k < |otps[1..]| && otps[1..][k] == rest[j];
        assert otps[k + 1] == rest[j];
      }
    }
  }

  /** Deleting a user keeps the database consistent: no code is left pointing at
      the removed user, and no other row is lost. */
  lemma DeleteKeepsValid(db: Db, uid: nat)
    requires Valid(db)
    ensures Valid(DeleteUser(db, uid))
    ensures forall o :: o in DeleteUser(db, uid).otps ==> o.userId != uid
  {
    var r := DeleteUser(db, uid);
    UsersExceptDistinct(db.users, uid);
    OtpsExceptDistinct(db.otps, uid);
    forall o | o in r.otps
      ensures o.userId in UserIds(r)
    {
      var u :| u in db.users && u.id == o.userId;
      assert u in r.users;
    }
  }
}
