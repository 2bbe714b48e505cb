/** The user table as a mutable object and the handlers as its methods, in
    the order of reads, checks and writes of `src/crud.py` and
    `src/router.py`. Each method is proved to leave the table and answer
    that the matching function of module Crud or Router describes. */
module Store {
  import opened Wrappers
  import opened Models
  import opened Schemas
  import opened Auth
  import Crud
  import Router
  import Lifecycle
  import Text
  import Config

  class UserStore {
    var users: Users
    var nextId: nat
    /** `ACCESS_TOKEN_EXPIRE_MINUTES`, the default token lifetime. */
    const expireMinutes: int

    function State(): Db
      reads this
    {
      Db(users, nextId)
    }

    ghost predicate Valid()
      reads this
    {
      Inv(State())
    }

    constructor (expireMinutes: int)
      ensures Valid() && users == map[] && nextId == 1
      ensures this.expireMinutes == expireMinutes
    {
      users := map[];
      nextId := 1;
      this.expireMinutes := expireMinutes;
    }

    /** `get_user_by_email`: exact match on the stored address; the address
        is not normalised here. */
    method GetUserByEmail(email: string) returns (u: Option<User>)
      ensures u.Some? <==> email in users
      ensures u.Some? ==> u.value == users[email]
    {
      if email in users {
        u := Some(users[email]);
      } else {
        u := None;
      }
    }

    /** `get_user_by_oauth`: the key of some user holding the identity. */
    method GetUserByOAuth(provider: string, id: string) returns (hit: Option<string>)
      ensures Crud.IsOAuthAnswer(users, provider, id, hit)
    {
      if exists e :: e in users && Crud.HasIdentity(users[e], provider, id) {
        var e :| e in users && Crud.HasIdentity(users[e], provider, id);
        hit := Some(e);
      } else {
        hit := None;
      }
    }

    /** `create_user`. */
    method CreateUser(username: string, email: string, hashedPassword: string) returns (u: User)
      requires Valid() && Text.Strip(email) !in users
      modifies this
      ensures Valid()
      ensures (State(), u) == Crud.CreateUser(old(State()), username, email, hashedPassword)
    {
      u := Crud.PasswordUser(nextId, username, email, hashedPassword);
      Lifecycle.InsertKeepsInv(State(), u.email, u);
      users := users[u.email := u];
      nextId := nextId + 1;
    }

    /** `create_oauth_user` with provider `google`. */
    method CreateOAuthUser(email: string, username: string, googleId: string, picture: Option<string>) returns (u: User)
      requires Valid() && email !in users
      modifies this
      ensures Valid()
      ensures (State(), u) == Crud.CreateOAuthUser(old(State()), email, username, googleId, picture)
    {
      u := Crud.GoogleUser(nextId, email, username, googleId, picture);
      Lifecycle.InsertKeepsInv(State(), email, u);
      users := users[email := u];
      nextId := nextId + 1;
    }

    /** `generate_otp`: draw the code, then write it onto the user stored
        under `email`, if there is one. */
    method GenerateOtp(email: string, draws: seq<nat>, now: int) returns (code: string)
      requires Valid() && Crud.IsDraws(draws)
      modifies this
      ensures Valid()
      ensures code == Crud.CodeOf(draws)
      ensures users == Crud.IssueOtp(old(users), email, code, now) && nextId == old(nextId)
    {
      code := DrawOtp(draws);
      Crud.IssueOtpKeepsInv(State(), email, code, now);
      var u := GetUserByEmail(email);
      if u.Some? {
        users := users[email := u.value.(otp := Some(code), otpExpiresAt := Some(now + 120), otpAttempts := 0)];
      }
    }

    /** `register`. */
    method Register(req: UserRegistration, hashpw: Router.Hasher, salt: string) returns (r: Result<(), Failure>)
      requires Valid()
      modifies this
      ensures Valid()
      ensures Router.Step(r, State()) == Router.Register(old(State()), req, hashpw, salt)
    {
      if !ValidRegistration(req) {
        return Err(Unprocessable);
      }
      var email := Text.Normalize(req.email);
      var existing := GetUserByEmail(email);
      if existing.Some? {
        return Err(EmailAlreadyRegistered);
      }
      var hashed := hashpw(req.password, salt);
      Text.StripNormalized(req.email);
      ghost var before := State();
      var _ := CreateUser(req.username, email, hashed);
      Lifecycle.RegisterKeepsInv(before, req, hashpw, salt);
      r := Ok(());
    }

    /** `login`. */
    method Login(req: UserLogin, checkpw: Router.Checker, draws: seq<nat>, now: int) returns (r: Result<Router.OtpSent, Failure>)
      requires Valid() && Crud.IsDraws(draws)
      modifies this
      ensures Valid()
      ensures Router.Step(r, State()) == Router.Login(old(State()), req, checkpw, draws, now)
    {
      var email := Text.Normalize(req.email);
      var found := GetUserByEmail(email);
      if found.None? {
        return Err(UserNotFound);
      }
      var u := found.value;
      if !HasPassword(u) {
        return Err(UseGoogleSignIn);
      }
      if !checkpw(req.password, u.hashedPassword.value) {
        return Err(InvalidCredentials);
      }
      ghost var before := State();
      var code := GenerateOtp(email, draws, now);
      Crud.IssueOtpKeepsInv(before, email, code, now);
      r := Ok(Router.OtpSent(Config.OtpTtlSeconds, code));
    }

    /** `verify_otp`. */
    method VerifyOtp(req: OtpVerification, now: int) returns (r: Result<Router.Session, Failure>)
      requires Valid()
      modifies this
      ensures Valid()
      ensures Router.Step(r, State()) == Router.VerifyOtp(old(State()), req, now, expireMinutes)
    {
      if !ValidOtpVerification(req) {
        return Err(Unprocessable);
      }
      var email := Text.Normalize(req.email);
      var found := GetUserByEmail(email);
      if found.None? {
        return Err(UserNotFound);
      }
      var u := found.value;
      ghost var before := State();
      if u.otpExpiresAt.None? || u.otpExpiresAt.value < now {
        users := users[email := u.(otp := None, otpExpiresAt := None)];
        Lifecycle.VerifyOtpKeepsInv(before, req, now, expireMinutes);
        return Err(OtpExpired);
      }
      if u.otp != Some(req.otp) {
        return Err(InvalidOtp);
      }
      u := u.(otp := None, otpExpiresAt := None);
      users := users[email := u];
      Lifecycle.VerifyOtpKeepsInv(before, req, now, expireMinutes);
      var token := CreateAccessToken(UserClaims(u), None, now, expireMinutes);
      r := Ok(Router.Session(token, "bearer", u));
    }

    /** `google_auth`. `verified` is the result of Google's token check;
        `hit` returns the answer of the lookup by provider identity when it
        was made. */
    method GoogleAuth(verified: Option<IdInfo>, now: int) returns (r: Result<Router.Session, Failure>, ghost hit: Option<string>)
      requires Valid()
      modifies this
      ensures Valid()
      ensures Router.GoogleLookupOk(old(State()), verified, hit)
      ensures Router.Step(r, State()) == Router.GoogleAuth(old(State()), verified, hit, now, expireMinutes)
    {
      hit := None;
      var identity := VerifyGoogleToken(verified);
      if identity.None? {
        return Err(InvalidGoogleToken), hit;
      }
      var g := identity.value;
      var email := Text.Lower(g.email);
      ghost var before := State();
      var u: User;
      var found := GetUserByEmail(email);
      var key := email;
      if found.None? {
        var byOAuth := GetUserByOAuth("google", g.googleId);
        hit := byOAuth;
        if byOAuth.None? {
          u := CreateOAuthUser(email, g.name, g.googleId, g.picture);
          Lifecycle.GoogleAuthKeepsInv(before, verified, hit, now, expireMinutes);
          return Ok(Router.SessionFor(u, now, expireMinutes)), hit;
        }
        key := byOAuth.value;
        u := users[key];
      } else {
        u := found.value;
      }
      if !HasProvider(u) {
        u := u.(oauthProvider := Some("google"), oauthId := Some(g.googleId), profilePicture := g.picture, isVerified := true);
        users := users[key := u];
      }
      Lifecycle.GoogleAuthKeepsInv(before, verified, hit, now, expireMinutes);
      var token := CreateAccessToken(UserClaims(u), None, now, expireMinutes);
      r := Ok(Router.Session(token, "bearer", u));
    }
  }

  /** The six-step loop of `generate_otp` that appends one random decimal
      digit per step. */
  method DrawOtp(draws: seq<nat>) returns (code: string)
    requires Crud.IsDraws(draws)
    ensures IsOtpCode(code)
    ensures code == Crud.CodeOf(draws)
  {
    code := "";
    var i := 0;
    while i < 6
      invariant 0 <= i <= 6
      invariant |code| == i
      invariant forall j :: 0 <= j < i ==> code[j] == Crud.DigitChar(draws[j])
    {
      code := code + [Crud.DigitChar(draws[i])];
      i := i + 1;
    }
  }
}
