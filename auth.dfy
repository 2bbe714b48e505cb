/** Building the access-token claims, mapping a verified Google ID token to
    an identity, and resolving a decoded access token to a stored user.
    Signing and decoding the token and checking the Google token's signature
    are not modelled: a token is its claim set, and the decoders' results
    are inputs. */
module Auth {
  import opened Wrappers
  import opened Models
  import Text

  /** A claim value: a string, or a number (ids and times in seconds). */
  datatype Claim = Str(s: string) | Num(n: int)

  type Claims = map<string, Claim>

  /** The expiry instant: `now + expires_delta` when a non-zero delta is
      given (a zero `timedelta` is falsy), otherwise
      `now + ACCESS_TOKEN_EXPIRE_MINUTES` minutes. */
  function Expiry(expiresDelta: Option<int>, now: int, expireMinutes: int): int
  {
    if expiresDelta.Some? && expiresDelta.value != 0 then now + expiresDelta.value
    else now + 60 * expireMinutes
  }

  /** `create_access_token`: a copy of `data` with the `exp` claim (the
      "exp" of section 4.1.4 of RFC 7519) added or replaced. */
  function CreateAccessToken(data: Claims, expiresDelta: Option<int>, now: int, expireMinutes: int): (token: Claims)
    ensures token.Keys == data.Keys + {"exp"}
    ensures forall k :: k in data && k != "exp" ==> token[k] == data[k]
    ensures expiresDelta.Some? && expiresDelta.value != 0 ==> token["exp"] == Num(now + expiresDelta.value)
    ensures expiresDelta.None? || expiresDelta.value == 0 ==> token["exp"] == Num(now + 60 * expireMinutes)
  {
    data["exp" := Num(Expiry(expiresDelta, now, expireMinutes))]
  }

  /** The claims both login paths put in a token: `sub` is the user's e-mail,
      `user_id` its id. */
  function UserClaims(u: User): Claims
  {
    map["sub" := Str(u.email), "user_id" := Num(u.id)]
  }

  /** The access token issued for `u` with the default lifetime. */
  function TokenFor(u: User, now: int, expireMinutes: int): (token: Claims)
    ensures token.Keys == {"sub", "user_id", "exp"}
    ensures token["sub"] == Str(u.email) && token["user_id"] == Num(u.id)
    ensures token["exp"] == Num(now + 60 * expireMinutes)
  {
    CreateAccessToken(UserClaims(u), None, now, expireMinutes)
  }

  /** The fields of a Google ID token (section 2 of OpenID Connect Core 1.0)
      after its signature and audience have been checked; a missing field
      is `None`. */
  datatype IdInfo = IdInfo(
    iss: Option<string>,
    sub: Option<string>,
    email: Option<string>,
    name: Option<string>,
    picture: Option<string>,
    emailVerified: Option<bool>)

  /** The identity `verify_google_token` returns. */
  datatype GoogleIdentity = GoogleIdentity(
    email: string,
    name: string,
    picture: Option<string>,
    googleId: string,
    emailVerified: bool)

  const GoogleIssuers: set<string> := {"accounts.google.com", "https://accounts.google.com"}

  /** `verify_google_token`: `verified` is what Google's verifier returned,
      `None` when it raised. Every failure, a raised error, an issuer outside
      the allow-list, a missing `iss`, `email` or `sub`, gives `None`. */
  function VerifyGoogleToken(verified: Option<IdInfo>): (r: Option<GoogleIdentity>)
    ensures r.Some? <==>
      && verified.Some?
      && verified.value.iss.Some? && verified.value.iss.value in GoogleIssuers
      && verified.value.email.Some? && verified.value.sub.Some?
    ensures r.Some? ==>
      var info := verified.value;
      && r.value.email == info.email.value
      && r.value.googleId == info.sub.value
      && r.value.picture == info.picture
      && (info.name.Some? ==> r.value.name == info.name.value)
      && (info.name.None? ==> r.value.name == Text.BeforeFirstAt(info.email.value))
      && r.value.emailVerified == (info.emailVerified == Some(true))
  {
    match verified
    case None => None
    case Some(info) =>
      if info.iss.None? || info.iss.value !in GoogleIssuers then None
      else if info.email.None? || info.sub.None? then None
      else
        var email := info.email.value;
        Some(GoogleIdentity(
          email,
          info.name.GetOr(Text.BeforeFirstAt(email)),
          info.picture,
          info.sub.value,
          info.emailVerified.GetOr(false)))
  }

  /** `get_current_user`: `decoded` is the payload the JWT decoder returned,
      `None` when it raised. The user is the one stored under the `sub`
      claim; anything else is answered with 401. */
  function GetCurrentUser(decoded: Option<Claims>, users: Users): (r: Result<User, Failure>)
    ensures r.Ok? <==>
      && decoded.Some? && "sub" in decoded.value
      && decoded.value["sub"].Str? && decoded.value["sub"].s in users
    ensures r.Ok? ==> r.value == users[decoded.value["sub"].s]
    ensures r.Err? ==> r.error == InvalidOrExpiredToken && r.error.Status() == 401
  {
    if decoded.None? || "sub" !in decoded.value then Err(InvalidOrExpiredToken)
    else match decoded.value["sub"]
      case Str(email) => if email in users then Ok(users[email]) else Err(InvalidOrExpiredToken)
      case Num(_) => Err(InvalidOrExpiredToken)
  }

  /** A token issued for a stored user resolves back to that user, as long
      as the decoder returns the claims that were signed. */
  lemma TokenNamesItsUser(u: User, users: Users, now: int, expireMinutes: int)
    requires u.email in users && users[u.email] == u
    ensures GetCurrentUser(Some(TokenFor(u, now, expireMinutes)), users) == Ok(u)
  {
  }
}
