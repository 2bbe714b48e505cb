# Email-OTP login service: a verified model

This project models the core of a small authentication service. Users register with a
username, an e-mail address and a password. A password login does not sign the user in
directly. It issues a 6-digit one-time passcode (OTP) that lives for 120 seconds and is
mailed to the user. Presenting that code at `verify_otp` yields a bearer access token.
A second path signs users in with a Google ID token instead. That path finds the account by
e-mail, then by Google identity, and creates one if both lookups fail. On the way it may
link the Google identity to an existing password account.

The model has one module per part of the service:

- `Text`: the address normalisation the handlers apply (`lower()`, `strip()`, `split('@')[0]`).
- `Schemas`: the request bodies and their field-length constraints.
- `Models`: the user record, the table, its invariant and the HTTP errors.
- `Auth`: the token claims, the mapping of a verified Google token, and `get_current_user`.
- `Crud`: the table operations as functions of the table.
- `Router`: the four handlers as functions from table and request to answer and new table.
- `Store`: class `UserStore`, which holds the table in mutable fields. Its methods perform the
  reads, checks and writes in the source's order, and each is proved to agree with the
  matching `Crud` or `Router` function.
- `Lifecycle`: properties that relate several calls.

Time is an integer number of seconds, `now`, passed in. The random passcode is passed in as
six draws, each below 10. bcrypt is a pair of function-valued parameters (`hashpw`,
`checkpw`). JWT signing and decoding are abstract: a token is its claim map, and
`get_current_user` receives what the decoder returned. Google's signature check is abstract
too: `google_auth` receives the verified ID-token fields, or `None` when verification raised.

The model follows the code as written, including these behaviours:

- There is no attempt ceiling. `otp_attempts` is reset to 0 when a code is issued, and
  nothing else reads or writes it. A wrong code changes nothing.
- The passcode is compared with plain inequality, not in constant time.
- Expiry is strict: `expires_at < now`. A code presented at exactly its expiry instant is
  accepted.
- Replaying an accepted code fails through the "OTP expired" branch. No separate
  "no challenge" error exists.
- A successful verification clears the code and its expiry but not `otp_attempts`.
- `google_auth` lower-cases the Google e-mail but does not strip it.
- `verify_google_token` reports `email_verified`, but `google_auth` ignores it. Linking an
  identity to an account without a provider marks that account verified
  (`src/router.py:121`) whatever Google reports.
- A Google sign-in that creates an account calls `create_oauth_user`, which the repository
  does not define. The model's choice is that the created account is verified, as a linked
  one is.

## Model

| member | source | states |
|---|---|---|
| `Text.Lower` | src/router.py:17 | `lower()` keeps the length, maps each upper-case ASCII letter to its lower-case letter, keeps every other character, and leaves no upper-case ASCII letter |
| `Text.Normalize` | src/router.py:17 | the handlers' `email.lower().strip()` equals stripping then lower-casing; the result has no whitespace at either end and no upper-case ASCII letter |
| `Text.Strip` | src/crud.py:9 | `strip()` yields the slice of the input that has only whitespace (Python `isspace`) before and after it and none at its own ends |
| `Text.StripNormalized` | src/crud.py:6-10 | the second `strip()` in `create_user` leaves an address normalised by `register` unchanged, so the stored address is the lookup key |
| `Text.LowerStripCommute` | src/router.py:17 | lower-casing and stripping commute |
| `Text.NormalizeIdempotent` | src/router.py:17 | normalising a normalised address changes nothing, so every handler resolves a stored address to itself |
| `Text.BeforeFirstAt` | src/auth.py:42 | `split('@')[0]` is the longest prefix without '@' and is followed by '@' when shorter than the input |
| `Auth.CreateAccessToken` | src/auth.py:18-25 | the result holds every input claim unchanged plus `exp`; `exp = now + delta` for a non-zero delta, else `now` plus the configured minutes |
| `Auth.TokenFor` | src/router.py:73 | the issued token's claims are exactly `sub` = the e-mail, `user_id` = the id, and `exp` with the default lifetime |
| `Auth.VerifyGoogleToken` | src/auth.py:29-53 | an identity is returned iff verification did not raise, `iss` is one of the two Google issuers, and `email` and `sub` are present. The identity has `google_id = sub`; `name` defaults to the part before the first '@'; `email_verified` defaults to false |
| `Auth.GetCurrentUser` | src/auth.py:55-76 | a user is returned iff the token decoded, has a string `sub`, and a user is stored under it; every other case gives 401 |
| `Auth.TokenNamesItsUser` | src/auth.py:72-76 | a token issued for a stored user resolves back to that user |
| `Crud.CodeOf` | src/crud.py:21 | the passcode has exactly `OTP_LEN` = 6 characters, each the decimal digit of its draw |
| `Crud.CreateUser` | src/crud.py:6-14 | inserts one user with the stripped e-mail, the given name and hash, and the next id, with no passcode; every other row is unchanged |
| `Crud.CreateOAuthUser` | src/router.py:107-114 | inserts one user under the given address with the given name and picture, no password, no passcode, provider `google`, the Google id, and verified; every other row is unchanged |
| `Crud.IssueOtp` | src/crud.py:20-30 | a stored user gets the code, expiry `now + OTP_TTL_SECONDS` and attempts 0; an unknown address changes nothing; no other row changes |
| `Crud.IssueOtpKeepsInv` | src/crud.py:26-28 | issuing a code keeps the table invariant: code set iff expiry set, and every stored code is 6 digits |
| `Router.Register` | src/router.py:15-27 | 422 iff the lengths are invalid; 409 iff they are valid and the normalised address is stored; success iff neither. Failures change nothing; success adds exactly the new user under the normalised address |
| `Router.Login` | src/router.py:29-47 | rejections in order: unknown address 404, then no password "use Google Sign-In", then wrong password "Invalid credentials"; success iff the address is stored with a password that `checkpw` accepts. Failures change nothing. Success returns the TTL and issues the drawn code to that user |
| `Router.VerifyOtp` | src/router.py:49-85 | 422 / 404 as validated. Missing or strictly past expiry: clears code and expiry, "OTP expired". Live but different code: "Invalid OTP" with nothing changed. Match: clears both and returns the token for the cleared user |
| `Router.GoogleAuth` | src/router.py:87-139 | an invalid token gives 400 with nothing changed. The user is resolved by lower-cased e-mail, then by `('google', sub)`, else created. A found user without a provider gets the identity, picture and verified flag; one with a provider is unchanged |
| `Store.UserStore.GetUserByEmail` | src/crud.py:16-17 | exact-match lookup, no normalisation |
| `Store.UserStore.GetUserByOAuth` | src/router.py:103 | returns the key of some user holding `(provider, id)`, or none when no user holds it |
| `Store.UserStore.CreateUser` | src/crud.py:6-14 | the table after the insert is the one `Crud.CreateUser` gives; the table invariant is kept |
| `Store.UserStore.CreateOAuthUser` | src/router.py:107-114 | the table after the insert is the one `Crud.CreateOAuthUser` gives; the table invariant is kept |
| `Store.UserStore.GenerateOtp` | src/crud.py:20-30 | returns the drawn code and writes it onto the stored user as `Crud.IssueOtp` says; the table invariant is kept |
| `Store.DrawOtp` | src/crud.py:21 | the six-step digit loop builds a 6-digit code equal to `Crud.CodeOf(draws)` |
| `Store.UserStore.Register` | src/router.py:15-27 | answer and new table are those of `Router.Register`; the table invariant is kept |
| `Store.UserStore.Login` | src/router.py:29-47 | answer and new table are those of `Router.Login`; the table invariant is kept |
| `Store.UserStore.VerifyOtp` | src/router.py:49-85 | answer and new table are those of `Router.VerifyOtp`; the table invariant is kept |
| `Store.UserStore.GoogleAuth` | src/router.py:87-139 | answer and new table are those of `Router.GoogleAuth` for the lookup answer it obtained; the table invariant is kept |
| `Lifecycle.RegisterKeepsInv` | src/crud.py:6-14 | registering keeps the invariant: rows under their own address, distinct ids below the next id, code iff expiry, a password or a provider |
| `Lifecycle.LoginKeepsInv` | src/router.py:43-44 | logging in keeps the table invariant |
| `Lifecycle.VerifyOtpKeepsInv` | src/router.py:58-70 | verifying keeps the invariant: code and expiry are cleared together |
| `Lifecycle.GoogleAuthKeepsInv` | src/router.py:105-123 | Google sign-in keeps the table invariant |
| `Lifecycle.OtpSingleUse` | src/router.py:58-70 | once a code is accepted, the same request fails with "OTP expired" at any time |
| `Lifecycle.OtpLivesForTtl` | src/router.py:58 | a code issued at `t` is accepted for `now <= t + 120` (boundary included) and refused as expired after |
| `Lifecycle.OnlyLatestOtpMatches` | src/crud.py:26 | after a new code is issued, any other code, including the earlier one, fails with "Invalid OTP" while the new one is live, and changes nothing |
| `Lifecycle.ValidationGatesHandlers` | src/schemas.py:3-20 | a registration gets 422 iff its username is outside 3..25 or its password outside 8..128 characters; a verification gets 422 iff its code is not 6 characters long; that 422 changes nothing; a login is never refused for length |
| `Lifecycle.VerifiedTokenNamesUser` | src/router.py:73 | the verification token has `sub` = the normalised address and `user_id` = the id, and `get_current_user` resolves it to that user |
| `Lifecycle.GoogleTokenNamesUser` | src/router.py:126 | the Google sign-in token has `sub` = the user's e-mail and `user_id` = its id, and resolves to that user |
| `Lifecycle.RegisterRefusesSameNormalForm` | src/router.py:17-21 | after registering an address, registering any spelling with the same normal form gives 409 and changes nothing |
| `Lifecycle.RegisteredUserGetsOtp` | src/router.py:34-47 | if bcrypt checks a password against its own hash, a registered user logging in with that password is sent the drawn code |
| `Lifecycle.PasswordPathEndToEnd` | src/router.py:15-73 | register, login, then verify before expiry yields a token for the normalised address; replaying the code fails with "OTP expired" |
| `Lifecycle.GoogleAccountRefusesPassword` | src/router.py:37-38 | an account created by Google sign-in is refused a password login with "use Google Sign-In", not "Invalid credentials" |
| `Lifecycle.GoogleAuthSettles` | src/router.py:115-123 | first provider wins: after one Google sign-in, a second with the same token changes nothing, whatever the identity lookup answers |
| `Lifecycle.GoogleLinksPasswordAccount` | src/router.py:116-121 | linking sets provider `google`, the Google id, the picture and verified, and keeps the password, passcode, address and id |

## Left out

- Response bodies are not modelled. A `Failure` names the branch that raised and its status code, not the `detail` text or the field-error list a failed validation answers with.
- Email delivery (`src/utils.py`) and the background task that sends the code are network I/O and are not modelled. `Login` returns the issued code instead.
- bcrypt hashing and checking come from a foreign library. They are uninterpreted function parameters. Only the lemmas that assume `BcryptContract` say anything about them.
- JWT encoding and decoding, including the decoder's own `exp` check, are foreign cryptography. A token is its claim map, and `GetCurrentUser` receives the decoder's result.
- Google's `verify_oauth2_token` (signature, audience, expiry) is a network call. Its result is an input. Claim values of an unexpected type are not modelled.
- `secrets.randbelow` and `datetime.utcnow()` become input draws and an integer `now` in whole seconds. Sub-second precision is not modelled.
- `Text.Lower` lower-cases ASCII letters only. Python's `lower()` also maps other Unicode letters.
- The `EmailStr` format check of the request schemas is library logic. Any string is accepted as an address.
- Store.UserStore.CreateUser and Crud.CreateUser require the stripped address to be unused. The unique column would raise in the database, and that error path is not modelled. `register` never reaches it.
- `create_oauth_user` and `get_user_by_oauth` are imported by the router but not defined in the repository. They are modelled as an insert with no password and a lookup that may return any matching row. Setting the verified flag on the created account is an assumption of the model, chosen to match the linking branch (`src/router.py:121`).
- `ACCESS_TOKEN_EXPIRE_MINUTES`, `SECRET_KEY` and `ALGORITHM` are missing from the settings. The token lifetime is a constructor parameter of `UserStore`.
- `GOOGLE_CLIENT_ID` is missing from the settings too. As written, `settings.GOOGLE_CLIENT_ID` (`src/auth.py:34`) raises, and the `except Exception` at `src/auth.py:51-53` turns that into `None` for every token, so every Google sign-in is refused. The model instead takes the verifier's result as an input, as if the setting were present.
- The record follows the fields the handlers use. The declared columns lack `otp_attempts` and the OAuth fields, and declare both `otp` and `otp_expires_at` non-nullable (`src/models.py:13-14`), although the handlers write `None` into both when they clear a passcode. The defaults of the undeclared `otp_attempts` and `is_verified` are taken as 0 and false.
- Sessions, commit and refresh, the engine pool, table creation, CORS, environment loading and the command-line client are plumbing or user I/O.
- `read_current_user` only returns what `get_current_user` returns, so it has no member of its own.
- The service has no attempt limit, lockout, constant-time comparison or per-account locking, so none is modelled. Concurrency is out of scope.
