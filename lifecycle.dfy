/** Properties of the login flow that relate the handlers to each other:
    the table invariant each one keeps, single use of a passcode, only the
    latest passcode matching, the expiry boundary, tokens naming their user,
    e-mail normalisation, and account linking on Google sign-in. */
module Lifecycle {
  import opened Wrappers
  import opened Models
  import opened Schemas
  import opened Auth
  import opened Router
  import Crud
  import Text
  import Config

  // ----- the table invariant -------------------------------------------------

  lemma RegisterKeepsInv(db: Db, req: UserRegistration, hashpw: Hasher, salt: string)
    requires Inv(db)
    ensures Inv(Register(db, req, hashpw, salt).db)
  {
    var s := Register(db, req, hashpw, salt);
    if s.result.Ok? {
      var email := Text.Normalize(req.email);
      var u := s.db.users[email];
      assert u.email == email && u.id == db.nextId && UserOk(u);
      forall e | e in s.db.users
        ensures s.db.users[e].email == e && s.db.users[e].id < s.db.nextId && UserOk(s.db.users[e])
      {
        if e != email {
          assert s.db.users[e] == db.users[e];
        }
      }
      forall e, f | e in s.db.users && f in s.db.users && e != f
        ensures s.db.users[e].id != s.db.users[f].id
      {
        if e != email && f != email {
          assert s.db.users[e] == db.users[e] && s.db.users[f] == db.users[f];
        } else if e == email {
          assert s.db.users[f] == db.users[f];
        } else {
          assert s.db.users[e] == db.users[e];
        }
      }
    }
  }

  lemma LoginKeepsInv(db: Db, req: UserLogin, checkpw: Checker, draws: seq<nat>, now: int)
    requires Inv(db) && Crud.IsDraws(draws)
    ensures Inv(Login(db, req, checkpw, draws, now).db)
  {
    Crud.IssueOtpKeepsInv(db, Text.Normalize(req.email), Crud.CodeOf(draws), now);
  }

  lemma VerifyOtpKeepsInv(db: Db, req: OtpVerification, now: int, expireMinutes: int)
    requires Inv(db)
    ensures Inv(VerifyOtp(db, req, now, expireMinutes).db)
  {
    var s := VerifyOtp(db, req, now, expireMinutes);
    var email := Text.Normalize(req.email);
    if s.db != db {
      forall e, f | e in s.db.users && f in s.db.users && e != f
        ensures s.db.users[e].id != s.db.users[f].id
      {
        assert s.db.users[e].id == db.users[e].id && s.db.users[f].id == db.users[f].id;
      }
    }
  }

  /** Storing a fresh row under its own, unused address with the next id
      keeps the invariant. */
  lemma InsertKeepsInv(db: Db, k: string, u: User)
    requires Inv(db) && k !in db.users
    requires u.email == k && u.id == db.nextId && UserOk(u)
    ensures Inv(Db(db.users[k := u], db.nextId + 1))
  {
    var users' := db.users[k := u];
    forall e, f | e in users' && f in users' && e != f
      ensures users'[e].id != users'[f].id
    {
      if e != k && f != k {
        assert users'[e] == db.users[e] && users'[f] == db.users[f];
      }
    }
  }

  /** Rewriting a stored row without changing its address or id keeps the
      invariant. */
  lemma ReplaceKeepsInv(db: Db, k: string, u: User)
    requires Inv(db) && k in db.users
    requires u.email == k && u.id == db.users[k].id && UserOk(u)
    ensures Inv(Db(db.users[k := u], db.nextId))
  {
    var users' := db.users[k := u];
    forall e, f | e in users' && f in users' && e != f
      ensures users'[e].id != users'[f].id
    {
      assert users'[e].id == db.users[e].id && users'[f].id == db.users[f].id;
    }
  }

  lemma GoogleAuthKeepsInv(db: Db, verified: Option<IdInfo>, hit: Option<string>, now: int, expireMinutes: int)
    requires Inv(db) && GoogleLookupOk(db, verified, hit)
    ensures Inv(GoogleAuth(db, verified, hit, now, expireMinutes).db)
  {
    var identity := VerifyGoogleToken(verified);
    if identity.Some? {
      var g := identity.value;
      var email := Text.Lower(g.email);
      match GoogleKey(db, g, hit)
      case None =>
        InsertKeepsInv(db, email, Crud.GoogleUser(db.nextId, email, g.name, g.googleId, g.picture));
      case Some(k) =>
        if !HasProvider(db.users[k]) {
          ReplaceKeepsInv(db, k, Link(db.users[k], g));
        }
    }
  }

  // ----- one-time passcodes -------------------------------------------------

  /** A passcode is single use: once accepted, the same request is refused
      through the expiry branch at any later (or earlier) time. */
  lemma OtpSingleUse(db: Db, req: OtpVerification, now: int, later: int, expireMinutes: int)
    requires VerifyOtp(db, req, now, expireMinutes).result.Ok?
    ensures VerifyOtp(VerifyOtp(db, req, now, expireMinutes).db, req, later, expireMinutes).result == Err(OtpExpired)
  {
  }

  /** After a login issues a passcode at `issuedAt`, presenting it for the
      same (normalised) address is accepted up to and including
      `issuedAt + OTP_TTL_SECONDS`, and refused as expired after that. */
  lemma OtpLivesForTtl(db: Db, login: UserLogin, checkpw: Checker, draws: seq<nat>, issuedAt: int,
                       req: OtpVerification, now: int, expireMinutes: int)
    requires Crud.IsDraws(draws)
    requires Login(db, login, checkpw, draws, issuedAt).result.Ok?
    requires Text.Normalize(req.email) == Text.Normalize(login.email) && req.otp == Crud.CodeOf(draws)
    ensures var s := VerifyOtp(Login(db, login, checkpw, draws, issuedAt).db, req, now, expireMinutes);
      && (now <= issuedAt + Config.OtpTtlSeconds ==> s.result.Ok?)
      && (now > issuedAt + Config.OtpTtlSeconds ==> s.result == Err(OtpExpired))
  {
  }

  /** At most one passcode per user: once a login has issued a passcode,
      every other code, in particular the one an earlier login issued, is
      refused while the new one is live, and the refusal changes nothing
      (no attempt counter moves). */
  lemma OnlyLatestOtpMatches(db: Db, login: UserLogin, checkpw: Checker, draws: seq<nat>, issuedAt: int,
                             req: OtpVerification, now: int, expireMinutes: int)
    requires Crud.IsDraws(draws)
    requires Login(db, login, checkpw, draws, issuedAt).result.Ok?
    requires Text.Normalize(req.email) == Text.Normalize(login.email)
    requires ValidOtpVerification(req) && req.otp != Crud.CodeOf(draws)
    requires now <= issuedAt + Config.OtpTtlSeconds
    ensures var db' := Login(db, login, checkpw, draws, issuedAt).db;
      && VerifyOtp(db', req, now, expireMinutes).result == Err(InvalidOtp)
      && VerifyOtp(db', req, now, expireMinutes).db == db'
  {
  }

  // ----- request validation ------------------------------------------------

  /** The field-length checks gate the handlers: a registration is answered
      with 422 exactly when its username is outside 3..25 or its password
      outside 8..128 characters, and a verification exactly when its code is
      not 6 characters long; that answer comes before anything is read or
      written. A login request is never refused by them, whatever the length
      of its password. */
  lemma ValidationGatesHandlers(db: Db, reg: UserRegistration, hashpw: Hasher, salt: string,
                                req: OtpVerification, now: int, expireMinutes: int,
                                login: UserLogin, checkpw: Checker, draws: seq<nat>)
    requires Crud.IsDraws(draws)
    ensures Register(db, reg, hashpw, salt).result == Err(Unprocessable) <==>
      !(3 <= |reg.username| <= 25 && 8 <= |reg.password| <= 128)
    ensures !(3 <= |reg.username| <= 25 && 8 <= |reg.password| <= 128) ==>
      Register(db, reg, hashpw, salt).db == db
    ensures VerifyOtp(db, req, now, expireMinutes).result == Err(Unprocessable) <==> |req.otp| != 6
    ensures |req.otp| != 6 ==> VerifyOtp(db, req, now, expireMinutes).db == db
    ensures Login(db, login, checkpw, draws, now).result != Err(Unprocessable)
  {
  }

  // ----- tokens -------------------------------------------------------------

  /** The token a successful verification issues carries `sub` = the user's
      e-mail and `user_id` = its id, and resolves back to that user. */
  lemma VerifiedTokenNamesUser(db: Db, req: OtpVerification, now: int, expireMinutes: int)
    requires Inv(db)
    requires VerifyOtp(db, req, now, expireMinutes).result.Ok?
    ensures var s := VerifyOtp(db, req, now, expireMinutes);
      var u := s.result.value.user;
      && s.result.value.accessToken["sub"] == Str(u.email)
      && s.result.value.accessToken["user_id"] == Num(u.id)
      && u.email == Text.Normalize(req.email)
      && GetCurrentUser(Some(s.result.value.accessToken), s.db.users) == Ok(u)
  {
    var s := VerifyOtp(db, req, now, expireMinutes);
    TokenNamesItsUser(s.result.value.user, s.db.users, now, expireMinutes);
  }

  /** The same for a Google sign-in. */
  lemma GoogleTokenNamesUser(db: Db, verified: Option<IdInfo>, hit: Option<string>, now: int, expireMinutes: int)
    requires Inv(db) && GoogleLookupOk(db, verified, hit)
    requires GoogleAuth(db, verified, hit, now, expireMinutes).result.Ok?
    ensures var s := GoogleAuth(db, verified, hit, now, expireMinutes);
      var u := s.result.value.user;
      && s.result.value.accessToken["sub"] == Str(u.email)
      && s.result.value.accessToken["user_id"] == Num(u.id)
      && GetCurrentUser(Some(s.result.value.accessToken), s.db.users) == Ok(u)
  {
    var s := GoogleAuth(db, verified, hit, now, expireMinutes);
    GoogleAuthKeepsInv(db, verified, hit, now, expireMinutes);
    var u := s.result.value.user;
    assert u.email in s.db.users && s.db.users[u.email] == u;
    TokenNamesItsUser(u, s.db.users, now, expireMinutes);
  }

  // ----- registration and password login -----------------------------------

  /** The behaviour of bcrypt the scenarios rely on: a hash is never empty
      and checks against the password it was made from. */
  ghost predicate BcryptContract(hashpw: Hasher, checkpw: Checker)
  {
    forall password, salt :: hashpw(password, salt) != "" && checkpw(password, hashpw(password, salt))
  }

  /** Addresses that differ only in case or surrounding whitespace name the
      same account: once one is registered, registering the other is refused
      with 409 and changes nothing. */
  lemma RegisterRefusesSameNormalForm(db: Db, first: UserRegistration, second: UserRegistration,
                                      hashpw: Hasher, salt: string, salt2: string)
    requires Register(db, first, hashpw, salt).result.Ok?
    requires ValidRegistration(second) && Text.Normalize(second.email) == Text.Normalize(first.email)
    ensures var db' := Register(db, first, hashpw, salt).db;
      && Register(db', second, hashpw, salt2).result == Err(EmailAlreadyRegistered)
      && Register(db', second, hashpw, salt2).db == db'
  {
  }

  /** A registered user who logs in with the registered password, under any
      spelling of the address with the same normal form, is sent a passcode. */
  lemma RegisteredUserGetsOtp(db: Db, reg: UserRegistration, hashpw: Hasher, checkpw: Checker, salt: string,
                              login: UserLogin, draws: seq<nat>, now: int)
    requires BcryptContract(hashpw, checkpw) && Crud.IsDraws(draws)
    requires Register(db, reg, hashpw, salt).result.Ok?
    requires Text.Normalize(login.email) == Text.Normalize(reg.email) && login.password == reg.password
    ensures Login(Register(db, reg, hashpw, salt).db, login, checkpw, draws, now).result
         == Ok(OtpSent(Config.OtpTtlSeconds, Crud.CodeOf(draws)))
  {
    assert hashpw(reg.password, salt) != "" && checkpw(reg.password, hashpw(reg.password, salt));
  }

  /** The password path end to end: after registering, logging in with the
      registered password and presenting the mailed passcode before it
      expires yields a token for the account; presenting it again fails. */
  lemma PasswordPathEndToEnd(db: Db, reg: UserRegistration, hashpw: Hasher, checkpw: Checker, salt: string,
                             draws: seq<nat>, issuedAt: int, now: int, later: int, expireMinutes: int)
    requires BcryptContract(hashpw, checkpw) && Crud.IsDraws(draws)
    requires Register(db, reg, hashpw, salt).result.Ok?
    requires issuedAt <= now <= issuedAt + Config.OtpTtlSeconds
    ensures var db1 := Register(db, reg, hashpw, salt).db;
      var login := UserLogin(reg.email, reg.password);
      var db2 := Login(db1, login, checkpw, draws, issuedAt).db;
      var req := OtpVerification(reg.email, Crud.CodeOf(draws));
      var s3 := VerifyOtp(db2, req, now, expireMinutes);
      && s3.result.Ok?
      && s3.result.value.user.email == Text.Normalize(reg.email)
      && VerifyOtp(s3.db, req, later, expireMinutes).result == Err(OtpExpired)
  {
    var db1 := Register(db, reg, hashpw, salt).db;
    var login := UserLogin(reg.email, reg.password);
    RegisteredUserGetsOtp(db, reg, hashpw, checkpw, salt, login, draws, issuedAt);
    var req := OtpVerification(reg.email, Crud.CodeOf(draws));
    OtpLivesForTtl(db1, login, checkpw, draws, issuedAt, req, now, expireMinutes);
    var db2 := Login(db1, login, checkpw, draws, issuedAt).db;
    OtpSingleUse(db2, req, now, later, expireMinutes);
  }

  // ----- Google sign-in -----------------------------------------------------

  /** An account created by a Google sign-in has no password: a password
      login to it is refused with "use Google Sign-In", not with "Invalid
      credentials". */
  lemma GoogleAccountRefusesPassword(db: Db, verified: Option<IdInfo>, now: int, expireMinutes: int,
                                     login: UserLogin, checkpw: Checker, draws: seq<nat>, later: int)
    requires Crud.IsDraws(draws) && GoogleLookupOk(db, verified, None)
    requires GoogleAuth(db, verified, None, now, expireMinutes).result.Ok?
    requires GoogleKey(db, VerifyGoogleToken(verified).value, None).None?
    requires Text.Normalize(login.email) == Text.Lower(VerifyGoogleToken(verified).value.email)
    ensures Login(GoogleAuth(db, verified, None, now, expireMinutes).db, login, checkpw, draws, later).result
         == Err(UseGoogleSignIn)
  {
  }

  /** The first provider wins: a Google sign-in for the e-mail of a
      password account links the identity once; a second sign-in, whatever
      the lookup by identity answers, changes nothing. */
  lemma GoogleAuthSettles(db: Db, verified: Option<IdInfo>, hit: Option<string>, hit2: Option<string>,
                          now: int, later: int, expireMinutes: int)
    requires GoogleLookupOk(db, verified, hit)
    requires GoogleAuth(db, verified, hit, now, expireMinutes).result.Ok?
    requires GoogleLookupOk(GoogleAuth(db, verified, hit, now, expireMinutes).db, verified, hit2)
    ensures var db' := GoogleAuth(db, verified, hit, now, expireMinutes).db;
      GoogleAuth(db', verified, hit2, later, expireMinutes).db == db'
  {
    var g := VerifyGoogleToken(verified).value;
    var db' := GoogleAuth(db, verified, hit, now, expireMinutes).db;
    var email := Text.Lower(g.email);
    match GoogleKey(db, g, hit)
    case None =>
      assert GoogleKey(db', g, hit2) == Some(email);
    case Some(k) =>
      assert k in db'.users && HasProvider(db'.users[k]);
      if email !in db'.users {
        assert Crud.HasIdentity(db'.users[k], "google", g.googleId);
      }
  }

  /** Account linking: a Google sign-in for the e-mail of an account without
      a provider attaches the Google identity and picture and marks the
      account verified; its password and passcode are kept. */
  lemma GoogleLinksPasswordAccount(db: Db, verified: Option<IdInfo>, hit: Option<string>, now: int, expireMinutes: int)
    requires GoogleLookupOk(db, verified, hit)
    requires VerifyGoogleToken(verified).Some?
    requires var email := Text.Lower(VerifyGoogleToken(verified).value.email);
      email in db.users && !HasProvider(db.users[email])
    ensures var g := VerifyGoogleToken(verified).value;
      var email := Text.Lower(g.email);
      var s := GoogleAuth(db, verified, hit, now, expireMinutes);
      var u, u' := db.users[email], s.db.users[email];
      && s.db.users.Keys == db.users.Keys
      && u'.oauthProvider == Some("google") && u'.oauthId == Some(g.googleId)
      && u'.profilePicture == g.picture && u'.isVerified
      && u'.hashedPassword == u.hashedPassword && u'.otp == u.otp && u'.otpExpiresAt == u.otpExpiresAt
      && u'.email == u.email && u'.id == u.id
  {
  }
}
