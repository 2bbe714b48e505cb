/** The user record as the handlers read and write it, the user table, its
    invariant, and the errors the handlers answer with. */
module Models {
  import opened Wrappers
  import Config

  /** One row of the `users` table. Times are whole seconds. */
  datatype User = User(
    id: nat,
    username: string,
    email: string,
    hashedPassword: Option<string>,
    otp: Option<string>,
    otpExpiresAt: Option<int>,
    otpAttempts: nat,
    oauthProvider: Option<string>,
    oauthId: Option<string>,
    profilePicture: Option<string>,
    isVerified: bool)

  /** The table, keyed by the stored e-mail (the column is unique). */
  type Users = map<string, User>

  /** The table together with the next value of the auto-increment id. */
  datatype Db = Db(users: Users, nextId: nat)

  /** Python truthiness of an optional string column: set and non-empty. */
  predicate IsSet(o: Option<string>)
  {
    o.Some? && o.value != ""
  }

  /** The test `if not db_user.hashed_password` fails: the account has a password. */
  predicate HasPassword(u: User)
  {
    IsSet(u.hashedPassword)
  }

  /** The test `if not db_user.oauth_provider` fails: a provider is linked. */
  predicate HasProvider(u: User)
  {
    IsSet(u.oauthProvider)
  }

  /** A code of `OTP_LEN` decimal digits. */
  predicate IsOtpCode(s: string)
  {
    |s| == Config.OtpLen && forall i :: 0 <= i < |s| ==> '0' <= s[i] <= '9'
  }

  /** The user with both passcode columns cleared. */
  function ClearOtp(u: User): User
  {
    u.(otp := None, otpExpiresAt := None)
  }

  /** Invariant of one stored user: the passcode and its expiry are set
      together, a stored passcode is a 6-digit code, and the account has a
      password hash or a provider identity. */
  ghost predicate UserOk(u: User)
  {
    && (u.otp.Some? <==> u.otpExpiresAt.Some?)
    && (u.otp.Some? ==> IsOtpCode(u.otp.value))
    && (u.hashedPassword.Some? || u.oauthProvider.Some?)
  }

  /** Invariant of the table: every row is stored under its own e-mail, ids
      are below the next id and pairwise distinct, every row satisfies `UserOk`. */
  ghost predicate Inv(db: Db)
  {
    && (forall e :: e in db.users ==> db.users[e].email == e && db.users[e].id < db.nextId)
    && (forall e :: e in db.users ==> UserOk(db.users[e]))
    && (forall e, f :: e in db.users && f in db.users && e != f ==> db.users[e].id != db.users[f].id)
  }

  /** The HTTP errors the handlers raise. */
  datatype Failure =
    | Unprocessable          // the request body fails validation
    | EmailAlreadyRegistered
    | UserNotFound
    | UseGoogleSignIn
    | InvalidCredentials
    | OtpExpired
    | InvalidOtp
    | InvalidGoogleToken
    | InvalidOrExpiredToken
  {
    function Status(): int
    {
      match this
      case Unprocessable => 422
      case EmailAlreadyRegistered => 409
      case UserNotFound => 404
      case InvalidOrExpiredToken => 401
      case _ => 400
    }
  }
}
