/** totp_utils.py: the seed used by the HTTP service. Only its length is
    checked, with no stripping and no lower-casing, before bytes.fromhex. */
module TotpUtils {
  import opened Wrappers
  import opened Text
  import opened Hex
  import opened Errors
  import Base32
  import Otp

  /** _hex_seed_to_base32 */
  function HexSeedToBase32(hexSeed: string): (r: Result<string, Error>)
    ensures |hexSeed| != 64 ==> r == Failure(SeedLength(|hexSeed|))
    ensures r.Success? <==> |hexSeed| == 64 && FromHex(hexSeed).Success?
    ensures r.Success? ==> Otp.KeyBytes(r.value) == Some(FromHex(hexSeed).value)
  {
    if |hexSeed| != 64 then Failure(SeedLength(|hexSeed|))
    else
      match FromHex(hexSeed)
      case Failure(p) => Failure(NonHexadecimal(p))
      case Success(bytes) =>
        Otp.KeyBytesOfEncoding(bytes);
        Success(Base32.Encode(bytes))
  }

  /** generate_totp_code at Unix time t: pyotp with six digits, 30 seconds and SHA-1. */
  function GenerateTotpCode(hotp: Otp.Hotp, hexSeed: string, t: nat): (r: Result<string, Error>)
    ensures r.Success? <==> HexSeedToBase32(hexSeed).Success?
    ensures r.Success? ==>
      (Otp.IsCode(r.value) && r.value == hotp(FromHex(hexSeed).value, Otp.TimeCode(t)))
  {
    var secret :- HexSeedToBase32(hexSeed);
    Otp.Now(hotp, secret, t)
  }

  /** verify_totp_code at Unix time t. */
  function VerifyTotpCode(hotp: Otp.Hotp, hexSeed: string, code: string, t: nat, validWindow: int := 1): (r: Result<bool, Error>)
    ensures HexSeedToBase32(hexSeed).Failure? ==> r == Failure(HexSeedToBase32(hexSeed).error)
    ensures HexSeedToBase32(hexSeed).Success? && validWindow < 0 ==> r == Success(false)
    ensures HexSeedToBase32(hexSeed).Success? && 0 <= validWindow <= Otp.TimeCode(t) ==> r.Success?
  {
    var secret :- HexSeedToBase32(hexSeed);
    Otp.Verify(hotp, secret, code, t, validWindow)
  }

  // ---------- properties ----------

  /** A 64-character seed with a character that is neither a hex digit nor
      ASCII whitespace fails in bytes.fromhex. */
  lemma NonHexSeedRejected(hexSeed: string, k: nat)
    requires |hexSeed| == 64 && k < 64
    requires !IsHexDigit(hexSeed[k]) && !IsAsciiWhitespace(hexSeed[k])
    ensures HexSeedToBase32(hexSeed).Failure? && HexSeedToBase32(hexSeed).error.NonHexadecimal?
  {
    FromHexRejects(hexSeed, k);
  }

  /** Upper- and lower-case hex digits give the same secret, hence the same codes. */
  lemma CaseInsensitive(hexSeed: string)
    ensures HexSeedToBase32(Lower(hexSeed)) == HexSeedToBase32(hexSeed)
  {
    FromHexLower(hexSeed);
  }

  /** No surrounding whitespace is tolerated: a blank-padded seed is too long. */
  lemma PaddedSeedRejected(hexSeed: string)
    requires |hexSeed| == 64
    ensures HexSeedToBase32(" " + hexSeed) == Failure(SeedLength(65))
  {
  }

  /** A just-generated code verifies at the same time for every window verify can
      evaluate: both derive the key the same way. */
  lemma GeneratedCodeVerifies(hotp: Otp.Hotp, hexSeed: string, t: nat, w: int)
    requires GenerateTotpCode(hotp, hexSeed, t).Success?
    requires 0 <= w <= Otp.TimeCode(t)
    ensures VerifyTotpCode(hotp, hexSeed, GenerateTotpCode(hotp, hexSeed, t).value, t, w) == Success(true)
  {
    Otp.VerifyOwnCode(hotp, HexSeedToBase32(hexSeed).value, t, w);
  }

  /** verify_totp_code is true iff the code is that of a counter within w steps
      of timecode(t). */
  lemma VerifyTotpCodeWindow(hotp: Otp.Hotp, hexSeed: string, code: string, t: nat, w: int)
    requires HexSeedToBase32(hexSeed).Success?
    requires 0 <= w <= Otp.TimeCode(t)
    ensures VerifyTotpCode(hotp, hexSeed, code, t, w) ==
      Success(Otp.CodeInRange(hotp, FromHex(hexSeed).value, code, Otp.TimeCode(t) - w, Otp.TimeCode(t) + w))
  {
    Otp.VerifyWindow(hotp, HexSeedToBase32(hexSeed).value, FromHex(hexSeed).value, code, t, w);
  }

  /** The all-zeros seed: accepted, its code is six digits derived from 32 zero
      bytes, and the code verifies under the default window of one step. */
  lemma ZeroSeed(hotp: Otp.Hotp, zeros: string, t: nat)
    requires |zeros| == 64 && forall i :: 0 <= i < 64 ==> zeros[i] == '0'
    requires t >= Otp.Interval
    ensures var r := GenerateTotpCode(hotp, zeros, t);
      r.Success? && Otp.IsCode(r.value) &&
      r.value == hotp(seq(32, i => 0), Otp.TimeCode(t)) &&
      VerifyTotpCode(hotp, zeros, r.value, t) == Success(true)
  {
    assert AllHexDigits(zeros);
    FromHexDigits(zeros);
    assert FromHex(zeros).value == seq(32, i => 0);
    GeneratedCodeVerifies(hotp, zeros, t, 1);
  }
}
