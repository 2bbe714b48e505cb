/** The four HTTP handlers as functions from the table (and the request) to
    the answer and the new table. `UserStore` in module Store runs them step
    by step on its mutable table and is proved to agree with these. */
module Router {
  import opened Wrappers
  import opened Models
  import opened Schemas
  import opened Auth
  import Crud
  import Text
  import Config

  /** `bcrypt.hashpw(password, salt)`, left uninterpreted. */
  type Hasher = (string, string) -> string

  /** `bcrypt.checkpw(password, hashed)`, left uninterpreted. */
  type Checker = (string, string) -> bool

  /** A handler's answer and the table after it. */
  datatype Step<T> = Step(result: Result<T, Failure>, db: Db)

  /** The answer of a successful login. `otp` is handed to the background
      mail task and is not part of the HTTP body. */
  datatype OtpSent = OtpSent(otpTtlSeconds: int, otp: string)

  /** The answer of a successful verification or Google sign-in. */
  datatype Session = Session(accessToken: Claims, tokenType: string, user: User)

  function SessionFor(u: User, now: int, expireMinutes: int): Session
  {
    Session(TokenFor(u, now, expireMinutes), "bearer", u)
  }

  /** `register`: validate the request, normalise the e-mail, refuse an
      address already stored, store a new user with the hashed password. */
  function Register(db: Db, req: UserRegistration, hashpw: Hasher, salt: string): (s: Step<()>)
    ensures s.result == Err(Unprocessable) <==> !ValidRegistration(req)
    ensures s.result == Err(EmailAlreadyRegistered) <==>
      ValidRegistration(req) && Text.Normalize(req.email) in db.users
    ensures s.result.Ok? <==> ValidRegistration(req) && Text.Normalize(req.email) !in db.users
    ensures s.result.Err? ==> s.db == db
    ensures s.result.Ok? ==>
      var email := Text.Normalize(req.email);
      && email !in db.users
      && s.db.nextId == db.nextId + 1
      && s.db.users.Keys == db.users.Keys + {email}
      && s.db.users[email] == Crud.PasswordUser(db.nextId, req.username, email, hashpw(req.password, salt))
      && s.db.users[email].email == email
      && (forall e :: e in db.users ==> s.db.users[e] == db.users[e])
  {
    if !ValidRegistration(req) then Step(Err(Unprocessable), db)
    else
      var email := Text.Normalize(req.email);
      if email in db.users then Step(Err(EmailAlreadyRegistered), db)
      else
        Text.StripNormalized(req.email);
        var (db', _) := Crud.CreateUser(db, req.username, email, hashpw(req.password, salt));
        Step(Ok(()), db')
  }

  /** `login`: unknown address, then an account without a password, then a
      wrong password are refused, in that order, without changing anything;
      otherwise a passcode is issued to the user. */
  function Login(db: Db, req: UserLogin, checkpw: Checker, draws: seq<nat>, now: int): (s: Step<OtpSent>)
    requires Crud.IsDraws(draws)
    ensures var email := Text.Normalize(req.email);
      && (s.result == Err(UserNotFound) <==> email !in db.users)
      && (s.result == Err(UseGoogleSignIn) <==> email in db.users && !HasPassword(db.users[email]))
      && (s.result == Err(InvalidCredentials) <==>
            email in db.users && HasPassword(db.users[email])
            && !checkpw(req.password, db.users[email].hashedPassword.value))
      && (s.result.Ok? <==>
            email in db.users && HasPassword(db.users[email])
            && checkpw(req.password, db.users[email].hashedPassword.value))
      && (s.result.Err? ==> s.db == db)
      && (s.result.Ok? ==>
            && s.result.value == OtpSent(Config.OtpTtlSeconds, Crud.CodeOf(draws))
            && s.db == Db(Crud.IssueOtp(db.users, email, Crud.CodeOf(draws), now), db.nextId))
  {
    var email := Text.Normalize(req.email);
    if email !in db.users then Step(Err(UserNotFound), db)
    else
      var u := db.users[email];
      if !HasPassword(u) then Step(Err(UseGoogleSignIn), db)
      else if !checkpw(req.password, u.hashedPassword.value) then Step(Err(InvalidCredentials), db)
      else
        var code := Crud.CodeOf(draws);
        Step(Ok(OtpSent(Config.OtpTtlSeconds, code)), Db(Crud.IssueOtp(db.users, email, code, now), db.nextId))
  }

  /** The test of `verify_otp`'s expiry branch: no expiry set, or an expiry
      strictly before `now`. */
  predicate OtpExpiredAt(u: User, now: int)
  {
    u.otpExpiresAt.None? || u.otpExpiresAt.value < now
  }

  /** `verify_otp`: an expired or missing passcode is cleared and refused; a
      live one that differs from the presented code is refused with nothing
      changed; a matching one is cleared and a token issued. */
  function VerifyOtp(db: Db, req: OtpVerification, now: int, expireMinutes: int): (s: Step<Session>)
    ensures var email := Text.Normalize(req.email);
      && (s.result == Err(Unprocessable) <==> !ValidOtpVerification(req))
      && (s.result == Err(UserNotFound) <==> ValidOtpVerification(req) && email !in db.users)
      && (s.result == Err(OtpExpired) <==>
            ValidOtpVerification(req) && email in db.users && OtpExpiredAt(db.users[email], now))
      && (s.result == Err(InvalidOtp) <==>
            && ValidOtpVerification(req) && email in db.users && !OtpExpiredAt(db.users[email], now)
            && db.users[email].otp != Some(req.otp))
      && (s.result.Ok? <==>
            && ValidOtpVerification(req) && email in db.users && !OtpExpiredAt(db.users[email], now)
            && db.users[email].otp == Some(req.otp))
      && (s.result.Err? && s.result.error != OtpExpired ==> s.db == db)
      && (s.result == Err(OtpExpired) || s.result.Ok? ==>
            s.db == Db(db.users[email := ClearOtp(db.users[email])], db.nextId))
      && (s.result.Ok? ==> s.result.value == SessionFor(ClearOtp(db.users[email]), now, expireMinutes))
  {
    if !ValidOtpVerification(req) then Step(Err(Unprocessable), db)
    else
      var email := Text.Normalize(req.email);
      if email !in db.users then Step(Err(UserNotFound), db)
      else
        var u := db.users[email];
        if OtpExpiredAt(u, now) then Step(Err(OtpExpired), Db(db.users[email := ClearOtp(u)], db.nextId))
        else if u.otp != Some(req.otp) then Step(Err(InvalidOtp), db)
        else
          var u' := ClearOtp(u);
          Step(Ok(SessionFor(u', now, expireMinutes)), Db(db.users[email := u'], db.nextId))
  }

  /** The user after a Google sign-in linked the identity `g` to it. */
  function Link(u: User, g: GoogleIdentity): User
  {
    u.(oauthProvider := Some("google"), oauthId := Some(g.googleId), profilePicture := g.picture, isVerified := true)
  }

  /** The key of the user a Google sign-in resolves to: the lower-cased
      e-mail when it is stored, otherwise the answer `hit` of the lookup by
      `('google', sub)`; `None` when both fail. */
  function GoogleKey(db: Db, g: GoogleIdentity, hit: Option<string>): Option<string>
  {
    var email := Text.Lower(g.email);
    if email in db.users then Some(email) else hit
  }

  /** `hit` is a possible answer of the lookup by provider identity, which
      `google_auth` makes only when the e-mail is not stored. */
  predicate GoogleLookupOk(db: Db, verified: Option<IdInfo>, hit: Option<string>)
  {
    var g := VerifyGoogleToken(verified);
    g.Some? && Text.Lower(g.value.email) !in db.users ==>
      Crud.IsOAuthAnswer(db.users, "google", g.value.googleId, hit)
  }

  /** `google_auth`: an invalid token is refused with nothing changed; a
      valid one signs in the user stored under the lower-cased e-mail, else
      the user holding the Google identity, else a new provider-only user.
      A found user without a provider gets the Google identity linked; a
      found user that already has one is left as it is. */
  function GoogleAuth(db: Db, verified: Option<IdInfo>, hit: Option<string>, now: int, expireMinutes: int): (s: Step<Session>)
    requires GoogleLookupOk(db, verified, hit)
    ensures s.result.Err? <==> VerifyGoogleToken(verified).None?
    ensures s.result.Err? ==> s.result.error == InvalidGoogleToken && s.db == db
    ensures s.result.Ok? ==>
      var g := VerifyGoogleToken(verified).value;
      var email := Text.Lower(g.email);
      && s.result.value == SessionFor(s.result.value.user, now, expireMinutes)
      && match GoogleKey(db, g, hit)
         case None =>
           && email !in db.users
           && (forall e :: e in db.users ==> !Crud.HasIdentity(db.users[e], "google", g.googleId))
           && s.result.value.user == Crud.GoogleUser(db.nextId, email, g.name, g.googleId, g.picture)
           && s.db == Db(db.users[email := s.result.value.user], db.nextId + 1)
         case Some(k) =>
           && k in db.users
           && (HasProvider(db.users[k]) ==> s.db == db && s.result.value.user == db.users[k])
           && (!HasProvider(db.users[k]) ==>
                 && s.result.value.user == Link(db.users[k], g)
                 && s.db == Db(db.users[k := s.result.value.user], db.nextId))
  {
    match VerifyGoogleToken(verified)
    case None => Step(Err(InvalidGoogleToken), db)
    case Some(g) =>
      var email := Text.Lower(g.email);
      match GoogleKey(db, g, hit)
      case None =>
        var (db', u) := Crud.CreateOAuthUser(db, email, g.name, g.googleId, g.picture);
        Step(Ok(SessionFor(u, now, expireMinutes)), db')
      case Some(k) =>
        var u := db.users[k];
        if HasProvider(u) then Step(Ok(SessionFor(u, now, expireMinutes)), db)
        else
          var u' := Link(u, g);
          Step(Ok(SessionFor(u', now, expireMinutes)), Db(db.users[k := u'], db.nextId))
  }
}
