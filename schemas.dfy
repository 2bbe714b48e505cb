/** The request bodies of the handlers and the field-length constraints the
    request validation enforces before a handler runs (a failing request is
    answered with status 422). The e-mail format check is not modelled. */
module Schemas {

  datatype UserRegistration = UserRegistration(username: string, email: string, password: string)

  datatype UserLogin = UserLogin(email: string, password: string)

  datatype OtpVerification = OtpVerification(email: string, otp: string)

  /** `username` has 3 to 25 characters and `password` 8 to 128. */
  predicate ValidRegistration(r: UserRegistration)
  {
    && 3 <= |r.username| <= 25
    && 8 <= |r.password| <= 128
  }

  /** `otp` has exactly 6 characters; its characters are not constrained. */
  predicate ValidOtpVerification(r: OtpVerification)
  {
    |r.otp| == 6
  }

  // A login request carries no length constraint: every UserLogin is accepted.
}
