/** totp.py: the seed is stripped and lower-cased, must then be 64 characters
    long, is hex-decoded and Base32-encoded, and handed to pyotp with six
    digits and a 30-second interval (SHA-1 by default). */
module Totp {
  import opened Wrappers
  import opened Text
  import opened Hex
  import opened Errors
  import Base32
  import Otp

  /** The seed as totp.py works on it: hex_seed.strip().lower(). */
  function Normalize(hexSeed: string): (r: string)
    ensures |r| == |Strip(hexSeed)| <= |hexSeed|
    ensures IsStripped(r)
    ensures forall i :: 0 <= i < |r| ==> !('A' <= r[i] <= 'Z')
  {
    LowerKeepsStripped(Strip(hexSeed));
    Lower(Strip(hexSeed))
  }

  /** hex_seed_to_base32 */
  function HexSeedToBase32(hexSeed: string): (r: Result<string, Error>)
    ensures |Normalize(hexSeed)| != 64 ==> r == Failure(SeedLength(|Strip(hexSeed)|))
    ensures r.Success? <==> |Normalize(hexSeed)| == 64 && FromHex(Normalize(hexSeed)).Success?
    ensures r.Success? ==> Otp.KeyBytes(r.value) == Some(FromHex(Normalize(hexSeed)).value)
  {
    var seed := Normalize(hexSeed);
    if |seed| != 64 then Failure(SeedLength(|seed|))
    else
      match FromHex(seed)
      case Failure(p) => Failure(NonHexadecimal(p))
      case Success(bytes) =>
        Otp.KeyBytesOfEncoding(bytes);
        Success(Base32.Encode(bytes))
  }

  /** generate_totp_code at Unix time t. */
  function GenerateTotpCode(hotp: Otp.Hotp, hexSeed: string, t: nat): (r: Result<string, Error>)
    ensures r.Success? <==> HexSeedToBase32(hexSeed).Success?
    ensures r.Success? ==>
      (Otp.IsCode(r.value) && r.value == hotp(FromHex(Normalize(hexSeed)).value, Otp.TimeCode(t)))
  {
    var secret :- HexSeedToBase32(hexSeed);
    Otp.Now(hotp, secret, t)
  }

  /** verify_totp_code at Unix time t. */
  function VerifyTotpCode(hotp: Otp.Hotp, hexSeed: string, code: string, t: nat, validWindow: int := 1): (r: Result<bool, Error>)
    ensures HexSeedToBase32(hexSeed).Failure? ==> r == Failure(HexSeedToBase32(hexSeed).error)
    ensures HexSeedToBase32(hexSeed).Success? && validWindow < 0 ==> r == Success(false)
    ensures HexSeedToBase32(hexSeed).Success? && 0 <= validWindow <= Otp.TimeCode(t) ==> r.Success?
  {
    var secret :- HexSeedToBase32(hexSeed);
    Otp.Verify(hotp, secret, code, t, validWindow)
  }

  // ---------- properties ----------

  /** Surrounding whitespace does not matter. */
  lemma HexSeedToBase32Padded(s: string, a: string, b: string)
    requires AllWhitespace(a) && AllWhitespace(b)
    ensures HexSeedToBase32(a + s + b) == HexSeedToBase32(s)
  {
    StripPadded(a, s, b);
  }

  /** Case does not matter. */
  lemma HexSeedToBase32CaseInsensitive(s: string)
    ensures HexSeedToBase32(Lower(s)) == HexSeedToBase32(s)
  {
    LowerStrip(s);
    LowerIdempotent(Strip(s));
    assert Normalize(Lower(s)) == Normalize(s);
  }

  /** A seed of hex digits with surrounding whitespace normalises to its lower-case form. */
  lemma NormalizeHexSeed(s: string, a: string, b: string)
    requires AllWhitespace(a) && AllWhitespace(b) && AllHexDigits(s)
    ensures Normalize(a + s + b) == Lower(s)
  {
    StripPadded(a, s, b);
    StripHexDigits(s);
  }

  /** A seed of 64 hex digits of either case and any surrounding whitespace
      is accepted and gives 32 key bytes, each the value of its two digits. */
  lemma HexSeedKey(s: string, a: string, b: string)
    requires AllWhitespace(a) && AllWhitespace(b)
    requires |s| == 64 && AllHexDigits(s)
    ensures HexSeedToBase32(a + s + b).Success?
    ensures FromHex(Normalize(a + s + b)) == FromHex(s)
    ensures var key := FromHex(s).value;
      |key| == 32 &&
      forall j :: 0 <= j < 32 ==> key[j] == 16 * HexValue(s[2 * j]) + HexValue(s[2 * j + 1])
  {
    FromHexDigits(s);
    NormalizeHexSeed(s, a, b);
    FromHexLower(s);
  }

  /** The secret handed to pyotp for such a seed: 52 symbols then four '='. */
  lemma HexSeedSecretShape(s: string)
    requires HexSeedToBase32(s).Success? && |FromHex(Normalize(s)).value| == 32
    ensures var secret := HexSeedToBase32(s).value;
      |secret| == 56 && (forall i :: 0 <= i < 52 ==> Base32.IsSymbol(secret[i])) && secret[52..] == "===="
  {
    Base32.EncodeSeedBytes(FromHex(Normalize(s)).value);
  }

  /** Inside the seed, blanks are skipped by bytes.fromhex: "00", two blanks and
      sixty zeros are 64 characters, accepted, and yield a key of only 31 bytes. */
  lemma HexSeedWithInnerBlanks(z: string)
    requires |z| == 60 && forall i :: 0 <= i < |z| ==> z[i] == '0'
    ensures FromHex("00  " + z).Success? && |FromHex("00  " + z).value| == 31
    ensures HexSeedToBase32("00  " + z) == Success(Base32.Encode(FromHex("00  " + z).value))
  {
    FromHexSkipsBlanks(z);
    InnerBlanksNormalized(z);
  }

  /** "00", two blanks and sixty zeros is already stripped and lower-case. */
  lemma InnerBlanksNormalized(z: string)
    requires |z| == 60 && forall i :: 0 <= i < |z| ==> z[i] == '0'
    ensures Normalize("00  " + z) == "00  " + z
  {
    var s := "00  " + z;
    InnerBlanksChars(z);
    StripBetweenNonBlanks(s);
    LowerUnchanged(s);
  }

  lemma InnerBlanksChars(z: string)
    requires |z| == 60 && forall i :: 0 <= i < |z| ==> z[i] == '0'
    ensures var s := "00  " + z;
      |s| == 64 && s[0] == '0' && s[63] == '0' &&
      forall i :: 0 <= i < |s| ==> s[i] == '0' || s[i] == ' '
  {
  }

  /** The generated code verifies at the same time with any window verify can evaluate. */
  lemma GeneratedCodeVerifies(hotp: Otp.Hotp, hexSeed: string, t: nat, w: int)
    requires GenerateTotpCode(hotp, hexSeed, t).Success?
    requires 0 <= w <= Otp.TimeCode(t)
    ensures VerifyTotpCode(hotp, hexSeed, GenerateTotpCode(hotp, hexSeed, t).value, t, w) == Success(true)
  {
    Otp.VerifyOwnCode(hotp, HexSeedToBase32(hexSeed).value, t, w);
  }

  /** verify_totp_code is true iff the code is that of a counter in
      timecode(t) - w .. timecode(t) + w, for every window verify can evaluate. */
  lemma VerifyTotpCodeWindow(hotp: Otp.Hotp, hexSeed: string, code: string, t: nat, w: int)
    requires HexSeedToBase32(hexSeed).Success?
    requires 0 <= w <= Otp.TimeCode(t)
    ensures VerifyTotpCode(hotp, hexSeed, code, t, w) ==
      Success(Otp.CodeInRange(hotp, FromHex(Normalize(hexSeed)).value, code, Otp.TimeCode(t) - w, Otp.TimeCode(t) + w))
  {
    var secret := HexSeedToBase32(hexSeed).value;
    Otp.VerifyWindow(hotp, secret, FromHex(Normalize(hexSeed)).value, code, t, w);
  }
}
