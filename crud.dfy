/** The table operations the handlers call, as functions of the table:
    creating a password user, creating a provider user, the lookup by
    provider identity, and issuing a one-time passcode. */
module Crud {
  import opened Wrappers
  import opened Models
  import Config
  import Text

  /** The ten-valued random draws a passcode is built from. */
  predicate IsDraws(draws: seq<nat>)
  {
    |draws| == 6 && forall i :: 0 <= i < |draws| ==> draws[i] < 10
  }

  function DigitChar(d: nat): char
    requires d < 10
  {
    ('0' as int + d) as char
  }

  /** The passcode spelled by six draws, one decimal digit per draw. */
  function CodeOf(draws: seq<nat>): (code: string)
    requires IsDraws(draws)
    ensures IsOtpCode(code)
    ensures forall i :: 0 <= i < |code| ==> code[i] as int - '0' as int == draws[i]
  {
    seq(6, i requires 0 <= i < 6 => DigitChar(draws[i]))
  }

  /** The row `create_user` inserts: the stripped e-mail, the given name and
      hash, no passcode, no provider. */
  function PasswordUser(id: nat, username: string, email: string, hashedPassword: string): User
  {
    User(id, username, Text.Strip(email), Some(hashedPassword), None, None, 0, None, None, None, false)
  }

  /** `create_user`. The e-mail column is unique, so the stripped address
      must not be stored yet. */
  function CreateUser(db: Db, username: string, email: string, hashedPassword: string): (r: (Db, User))
    requires Text.Strip(email) !in db.users
    ensures r.1.email == Text.Strip(email) && r.1.username == username
    ensures r.1.hashedPassword == Some(hashedPassword) && r.1.otp.None? && r.1.otpExpiresAt.None?
    ensures r.1.id == db.nextId && r.0.nextId == db.nextId + 1
    ensures r.0.users.Keys == db.users.Keys + {r.1.email} && |r.0.users| == |db.users| + 1
    ensures r.0.users[r.1.email] == r.1
    ensures forall e :: e in db.users ==> r.0.users[e] == db.users[e]
  {
    var u := PasswordUser(db.nextId, username, email, hashedPassword);
    (Db(db.users[u.email := u], db.nextId + 1), u)
  }

  /** The row a Google sign-in inserts for a new identity: no password,
      provider `google`, verified. */
  function GoogleUser(id: nat, email: string, username: string, googleId: string, picture: Option<string>): User
  {
    User(id, username, email, None, None, None, 0, Some("google"), Some(googleId), picture, true)
  }

  /** `create_oauth_user` with provider `google`. */
  function CreateOAuthUser(db: Db, email: string, username: string, googleId: string, picture: Option<string>): (r: (Db, User))
    requires email !in db.users
    ensures r.1.email == email && r.1.username == username && r.1.hashedPassword.None? && r.1.isVerified
    ensures r.1.profilePicture == picture && r.1.otp.None? && r.1.otpExpiresAt.None?
    ensures r.1.oauthProvider == Some("google") && r.1.oauthId == Some(googleId)
    ensures r.1.id == db.nextId && r.0.nextId == db.nextId + 1
    ensures r.0.users.Keys == db.users.Keys + {email} && |r.0.users| == |db.users| + 1
    ensures r.0.users[email] == r.1
    ensures forall e :: e in db.users ==> r.0.users[e] == db.users[e]
  {
    var u := GoogleUser(db.nextId, email, username, googleId, picture);
    (Db(db.users[email := u], db.nextId + 1), u)
  }

  /** The stored user carries the provider identity `(provider, id)`. */
  predicate HasIdentity(u: User, provider: string, id: string)
  {
    u.oauthProvider == Some(provider) && u.oauthId == Some(id)
  }

  /** `hit` is a possible answer of `get_user_by_oauth(provider, id)`: the
      key of some user with that identity, or `None` when no user has it.
      The identity is not unique, and the query does not say which match
      comes first. */
  predicate IsOAuthAnswer(users: Users, provider: string, id: string, hit: Option<string>)
  {
    match hit
    case None => forall e :: e in users ==> !HasIdentity(users[e], provider, id)
    case Some(e) => e in users && HasIdentity(users[e], provider, id)
  }

  /** The user after `generate_otp` wrote a new passcode onto it. */
  function WithOtp(u: User, code: string, now: int): User
  {
    u.(otp := Some(code), otpExpiresAt := Some(now + 120), otpAttempts := 0)
  }

  /** The table after `generate_otp(email)` with the passcode `code`: the
      user stored under `email`, if any, holds `code`, expiring
      `OTP_TTL_SECONDS` after `now`, with its attempt counter at 0; nothing
      else changes. */
  function IssueOtp(users: Users, email: string, code: string, now: int): (r: Users)
    ensures r.Keys == users.Keys
    ensures forall e :: e in users && e != email ==> r[e] == users[e]
    ensures email in users ==>
      && r[email].otp == Some(code)
      && r[email].otpExpiresAt == Some(now + Config.OtpTtlSeconds)
      && r[email].otpAttempts == 0
      && r[email] == users[email].(otp := r[email].otp, otpExpiresAt := r[email].otpExpiresAt, otpAttempts := 0)
  {
    if email in users then users[email := WithOtp(users[email], code, now)] else users
  }

  /** Issuing keeps the table invariant. */
  lemma IssueOtpKeepsInv(db: Db, email: string, code: string, now: int)
    requires Inv(db) && IsOtpCode(code)
    ensures Inv(Db(IssueOtp(db.users, email, code, now), db.nextId))
  {
    var users' := IssueOtp(db.users, email, code, now);
    forall e, f | e in users' && f in users' && e != f
      ensures users'[e].id != users'[f].id
    {
      assert users'[e].id == db.users[e].id && users'[f].id == db.users[f].id;
    }
  }
}
