/** scripts/log_2fa_cron.py: reads the stored seed, if any, and logs the
    current code. Its conversion has no length check, and every exception
    becomes text starting with "ERROR: ". */
module LogCron {
  import opened Wrappers
  import opened Text
  import opened Hex
  import opened Errors
  import Base32
  import Otp

  /** load_seed: None when the seed file is absent, its stripped contents otherwise. */
  function LoadSeed(seedFile: Option<string>): (r: Option<string>)
    ensures r.None? <==> seedFile.None?
    ensures r.Some? ==> r.value == Strip(seedFile.value) && IsStripped(r.value)
  {
    match seedFile
    case None => None
    case Some(contents) => Some(Strip(contents))
  }

  /** hex_to_base32: any string bytes.fromhex accepts, of any length. */
  function HexToBase32(hexSeed: string): (r: Result<string, Error>)
    ensures r.Success? <==> FromHex(hexSeed).Success?
    ensures r.Failure? ==> r.error == NonHexadecimal(FromHex(hexSeed).error)
    ensures r.Success? ==>
      |r.value| == 8 * ((|FromHex(hexSeed).value| + 4) / 5) &&
      Otp.KeyBytes(r.value) == Some(FromHex(hexSeed).value)
  {
    match FromHex(hexSeed)
    case Failure(p) => Failure(NonHexadecimal(p))
    case Success(rawBytes) =>
      Otp.KeyBytesOfEncoding(rawBytes);
      Success(Base32.Encode(rawBytes))
  }

  /** str(n): the decimal digits of n, without leading zeros. */
  function NatToString(n: nat): (s: string)
    ensures |s| >= 1 && forall i :: 0 <= i < |s| ==> Otp.IsDecimalDigit(s[i])
    ensures Otp.DecimalValue(s) == n
    ensures |s| == 1 <==> n < 10
    ensures |s| > 1 ==> s[0] != '0'
  {
    var d := [('0' as int + n % 10) as char];
    if n < 10 then d
    else
      var init := NatToString(n / 10);
      assert (init + d)[..|init + d| - 1] == init;
      init + d
  }

  const HexErrorText: string := "non-hexadecimal number found in fromhex() arg at position "

  /** str(e) of the exceptions that can reach the except clause. */
  function Message(e: Error): (r: string)
    ensures |r| > 0
    ensures e.NonHexadecimal? ==>
      |r| > |HexErrorText| && r[..|HexErrorText|] == HexErrorText &&
      (forall i :: |HexErrorText| <= i < |r| ==> Otp.IsDecimalDigit(r[i])) &&
      Otp.DecimalValue(r[|HexErrorText|..]) == e.position
  {
    match e
    case NonHexadecimal(p) =>
      var r := HexErrorText + NatToString(p);
      assert r[|HexErrorText|..] == NatToString(p);
      r
    case IncorrectPadding => "Incorrect padding"
    case NegativeCounter => "input must be positive integer"
    case SeedLength(n) => "Hex seed must be 64 characters"
  }

  const ErrorPrefix: string := "ERROR: "

  /** generate_totp at Unix time t: pyotp.TOTP with its defaults (six digits,
      30 seconds, SHA-1); never raises. */
  function GenerateTotp(hotp: Otp.Hotp, hexSeed: string, t: nat): (r: string)
    ensures FromHex(hexSeed).Success? ==>
      r == hotp(FromHex(hexSeed).value, Otp.TimeCode(t)) && Otp.IsCode(r)
    ensures FromHex(hexSeed).Failure? ==>
      r == ErrorPrefix + Message(NonHexadecimal(FromHex(hexSeed).error))
    ensures Otp.IsCode(r) <==> FromHex(hexSeed).Success?
    ensures (|r| >= 7 && r[..7] == ErrorPrefix) <==> FromHex(hexSeed).Failure?
  {
    match HexToBase32(hexSeed)
    case Failure(e) => ErrorPrefix + Message(e)
    case Success(secret) =>
      match Otp.Now(hotp, secret, t)
      case Failure(e) => ErrorPrefix + Message(e)
      case Success(code) => code
  }

  const NotFoundText: string := " - ERROR: seed.txt not found"
  const CodeText: string := " - 2FA Code: "

  /** The text main() prints after the timestamp. */
  function Report(seed: Option<string>, hotp: Otp.Hotp, t: nat): (rest: string)
    ensures seed.None? ==> rest == NotFoundText
    ensures seed.Some? && FromHex(seed.value).Success? ==>
      rest == CodeText + hotp(FromHex(seed.value).value, Otp.TimeCode(t))
    ensures seed.Some? && FromHex(seed.value).Failure? ==>
      rest == CodeText + (ErrorPrefix + Message(NonHexadecimal(FromHex(seed.value).error)))
  {
    if seed.None? then NotFoundText
    else CodeText + GenerateTotp(hotp, seed.value, t)
  }

  /** The line main() prints: the timestamp, then the report. */
  function LogLine(timestamp: string, seed: Option<string>, hotp: Otp.Hotp, t: nat): (line: string)
    ensures |line| >= |timestamp| && line[..|timestamp|] == timestamp
    ensures line[|timestamp|..] == Report(seed, hotp, t)
  {
    timestamp + Report(seed, hotp, t)
  }

  // ---------- properties ----------

  /** The empty seed file is no error: fromhex("") is empty, and the code is that of the empty key. */
  lemma EmptySeedGivesCode(hotp: Otp.Hotp, t: nat)
    ensures GenerateTotp(hotp, "", t) == hotp([], Otp.TimeCode(t))
  {
  }

  /** Any even number of hex digits is accepted; the secret has 8 * ceil(n / 5)
      characters for n = |hexSeed| / 2 bytes. */
  lemma HexToBase32AnyLength(hexSeed: string)
    requires AllHexDigits(hexSeed) && |hexSeed| % 2 == 0
    ensures HexToBase32(hexSeed).Success?
    ensures |HexToBase32(hexSeed).value| == 8 * ((|hexSeed| / 2 + 4) / 5)
  {
    FromHexDigits(hexSeed);
  }

  /** A reader of the log can tell the three outcomes apart from the report:
      the missing file, a six-digit code, or an error message. */
  lemma ReportTellsOutcome(seed: Option<string>, hotp: Otp.Hotp, t: nat)
    ensures var rest := Report(seed, hotp, t);
      (rest == NotFoundText <==> seed.None?) &&
      ((|rest| == 19 && Otp.IsCode(rest[13..])) <==> seed.Some? && FromHex(seed.value).Success?) &&
      ((|rest| >= 20 && rest[13..20] == ErrorPrefix) <==> seed.Some? && FromHex(seed.value).Failure?)
  {
    var code := if seed.None? then "" else GenerateTotp(hotp, seed.value, t);
    RestTellsOutcome(Report(seed, hotp, t), seed.None?, code);
  }

  /** The text after the timestamp is the not-found message, or the code marker
      followed by what generate_totp returned. */
  lemma RestTellsOutcome(rest: string, missing: bool, code: string)
    requires rest == if missing then NotFoundText else CodeText + code
    ensures rest == NotFoundText <==> missing
    ensures (|rest| == 19 && Otp.IsCode(rest[13..])) <==> !missing && Otp.IsCode(code)
    ensures (|rest| >= 20 && rest[13..20] == ErrorPrefix) <==>
      !missing && |code| >= 7 && code[..7] == ErrorPrefix
  {
    if missing {
      assert NotFoundText[13] != ErrorPrefix[0];
    } else {
      assert rest[3] != NotFoundText[3];
      assert rest[13..] == code;
      if |rest| >= 20 {
        assert rest[13..20] == code[..7];
      }
    }
  }
}
