/** The two settings of `src/config.py` that the OTP flow refers to. */
module Config {

  /** Lifetime of an issued one-time passcode, in seconds. */
  const OtpTtlSeconds: int := 120

  /** Number of decimal digits in a one-time passcode. */
  const OtpLen: nat := 6
}
