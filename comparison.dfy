/** How the four seed pipelines relate: decrypt_seed.py against main.py's
    decrypt_seed, and totp.py, totp_utils.py and the cron script on the
    same stored seed. */
module Comparison {
  import opened Wrappers
  import opened Text
  import opened Hex
  import opened Errors
  import Otp
  import Totp
  import TotpUtils
  import LogCron
  import SeedDecrypt
  import Service

  /** Every seed decrypt_seed.py accepts is accepted unchanged by main.py. */
  lemma DecryptersAgree(s: string)
    requires SeedDecrypt.ValidateSeed(s).Success?
    ensures Service.ValidateHexSeed(s) == Success(s)
  {
    SeedDecrypt.AcceptedSeed(s);
    StripHexDigits(s);
    Service.HexDigitsAreLiteral(s);
  }

  /** main.py accepts more: a "0x" prefix, which decrypt_seed.py rejects as invalid hex ... */
  lemma PrefixedSeedSplitsDecrypters(z: string)
    requires |z| == 62 && forall i :: 0 <= i < 62 ==> z[i] == '0'
    ensures Service.ValidateHexSeed("0x" + z).Success?
    ensures SeedDecrypt.ValidateSeed("0x" + z) == Failure(SeedDecrypt.InvalidHex)
  {
    var s := "0x" + z;
    assert s[1] == 'x' && !IsLowerHexDigit(LowerChar(s[1]));
    assert !SeedDecrypt.LowerCaseHex(s);
    Service.PrefixedSeedAccepted(z);
  }

  /** ... and surrounding whitespace, which makes decrypt_seed.py's text too long. */
  lemma PaddedSeedSplitsDecrypters(s: string)
    requires |s| == 64 && AllHexDigits(s)
    ensures Service.ValidateHexSeed(s + "\n") == Success(s)
    ensures SeedDecrypt.ValidateSeed(s + "\n") == Failure(SeedDecrypt.WrongLength)
  {
    assert AllWhitespace("\n");
    assert [] + s + "\n" == s + "\n";
    assert IsStripped(s) by { assert IsHexDigit(s[0]) && IsHexDigit(s[63]); }
    StripUnique([], s, "\n");
    Service.HexDigitsAreLiteral(s);
  }

  /** read_seed_from_file checks the length only: 64 characters that are not hex
      are read back, and generate_totp_code then raises. */
  lemma ReaderAcceptsNonHex(s: string)
    requires |s| == 64 && forall i :: 0 <= i < 64 ==> s[i] == 'g'
    ensures Service.ReadSeedFromFile(Some(s)) == Success(s)
    ensures forall hotp: Otp.Hotp, t: nat :: TotpUtils.GenerateTotpCode(hotp, s, t).Failure?
  {
    assert s[0] == 'g' && s[63] == 'g';
    StripBetweenNonBlanks(s);
    FromHexRejects(s, 0);
  }

  /** For 64 plain hex digits, totp.py, totp_utils.py and the cron script
      produce the same code at the same time. */
  lemma SameCodeEverywhere(hotp: Otp.Hotp, s: string, t: nat)
    requires |s| == 64 && AllHexDigits(s)
    ensures TotpUtils.GenerateTotpCode(hotp, s, t).Success?
    ensures Totp.GenerateTotpCode(hotp, s, t) == TotpUtils.GenerateTotpCode(hotp, s, t)
    ensures LogCron.GenerateTotp(hotp, s, t) == TotpUtils.GenerateTotpCode(hotp, s, t).value
  {
    assert [] + s + [] == s;
    TotpToleratesPadding(hotp, s, [], [], t);
    CronExtendsTotpUtils(hotp, s, t);
  }

  /** totp.py also takes the seed case-insensitively and with surrounding
      whitespace; its code is that of the bare seed in totp_utils.py. */
  lemma TotpToleratesPadding(hotp: Otp.Hotp, s: string, a: string, b: string, t: nat)
    requires |s| == 64 && AllHexDigits(s) && AllWhitespace(a) && AllWhitespace(b)
    ensures Totp.GenerateTotpCode(hotp, a + s + b, t).Success?
    ensures Totp.GenerateTotpCode(hotp, a + s + b, t) == TotpUtils.GenerateTotpCode(hotp, s, t)
    ensures a + b != [] ==> TotpUtils.GenerateTotpCode(hotp, a + s + b, t).Failure?
  {
    Totp.HexSeedKey(s, a, b);
  }

  /** Whenever totp_utils.py produces a code, the cron script logs the same one;
      the cron script also takes seeds of other lengths, the empty one included. */
  lemma CronExtendsTotpUtils(hotp: Otp.Hotp, s: string, t: nat)
    requires TotpUtils.GenerateTotpCode(hotp, s, t).Success?
    ensures LogCron.GenerateTotp(hotp, s, t) == TotpUtils.GenerateTotpCode(hotp, s, t).value
    ensures TotpUtils.GenerateTotpCode(hotp, "", t) == Failure(SeedLength(0))
    ensures Otp.IsCode(LogCron.GenerateTotp(hotp, "", t))
  {
    LogCron.EmptySeedGivesCode(hotp, t);
  }

  /** The code GET /generate-2fa returns for a stored seed is accepted by
      POST /verify-2fa at the same time (once the clock is past the first step). */
  lemma ServiceRoundTrip(hotp: Otp.Hotp, s: string, t: nat)
    requires |s| == 64 && AllHexDigits(s) && t >= Otp.Interval
    ensures TotpUtils.GenerateTotpCode(hotp, s, t).Success?
    ensures TotpUtils.VerifyTotpCode(hotp, s, TotpUtils.GenerateTotpCode(hotp, s, t).value, t, 1) == Success(true)
  {
    FromHexDigits(s);
    TotpUtils.GeneratedCodeVerifies(hotp, s, t, 1);
  }
}
