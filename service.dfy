/** main.py: the HTTP service. POST /decrypt-seed stores a decrypted seed in
    the seed file; GET /generate-2fa and POST /verify-2fa read it back and
    call totp_utils. The seed file is a field of the service object: None
    while it does not exist, otherwise its contents. */
module Service {
  import opened Wrappers
  import opened Text
  import opened Hex
  import opened Errors
  import Otp
  import TotpUtils

  // ---------- decrypt_seed ----------

  /** bytes.decode("ascii"): None stands for UnicodeDecodeError. */
  function AsciiDecode(bs: seq<Byte>): (r: Option<string>)
    ensures r.Some? <==> forall i :: 0 <= i < |bs| ==> bs[i] < 128
    ensures r.Some? ==> |r.value| == |bs| && forall i :: 0 <= i < |bs| ==> r.value[i] as int == bs[i]
  {
    if bs == [] then Some([])
    else if bs[0] >= 128 then None
    else
      match AsciiDecode(bs[1..])
      case None => None
      case Some(rest) => Some([bs[0] as char] + rest)
  }

  /** The characters int(s, 16) can accept in an ASCII string. */
  predicate IsLiteralChar(c: char)
  {
    IsHexDigit(c) || c == '+' || c == '-' || c == 'x' || c == 'X' || c == '_'
  }

  /** The rest of a digit run: digits, each optionally preceded by one underscore. */
  predicate DigitTail(v: string)
  {
    v == [] ||
    (IsHexDigit(v[0]) && DigitTail(v[1..])) ||
    (|v| >= 2 && v[0] == '_' && IsHexDigit(v[1]) && DigitTail(v[2..]))
  }

  /** One or more hex digits with single underscores between them. */
  predicate IsDigitRun(v: string)
  {
    |v| > 0 && IsHexDigit(v[0]) && DigitTail(v[1..])
  }

  /** int(s, 16) does not raise, for an ASCII string without surrounding
      whitespace: an optional sign, an optional 0x or 0X prefix that may be
      followed by one underscore, then a digit run. */
  predicate IsHexLiteral(s: string)
    ensures IsHexLiteral(s) ==> |s| > 0 && IsHexDigit(s[|s| - 1])
  {
    var unsigned := if |s| > 0 && (s[0] == '+' || s[0] == '-') then s[1..] else s;
    var digits :=
      if |unsigned| >= 2 && unsigned[0] == '0' && (unsigned[1] == 'x' || unsigned[1] == 'X') then
        if |unsigned| >= 3 && unsigned[2] == '_' then unsigned[3..] else unsigned[2..]
      else unsigned;
    DigitRunLast(digits);
    IsDigitRun(digits)
  }

  /** A digit run ends with a digit: no trailing underscore. */
  lemma DigitRunLast(v: string)
    ensures IsDigitRun(v) ==> IsHexDigit(v[|v| - 1])
  {
    if IsDigitRun(v) && |v| > 1 {
      DigitTailLast(v[1..]);
      assert v[|v| - 1] == v[1..][|v| - 2];
    }
  }

  lemma {:induction false} DigitTailLast(v: string)
    requires DigitTail(v) && v != []
    ensures IsHexDigit(v[|v| - 1])
  {
    if IsHexDigit(v[0]) && DigitTail(v[1..]) {
      if |v| > 1 {
        DigitTailLast(v[1..]);
        assert v[|v| - 1] == v[1..][|v| - 2];
      }
    } else if |v| > 2 {
      DigitTailLast(v[2..]);
      assert v[|v| - 1] == v[2..][|v| - 3];
    }
  }

  /** Why main.decrypt_seed raised; the endpoint reports all of them alike. */
  datatype DecryptError =
    | Undecryptable  // missing key file, bad PEM, base64 or OAEP failure
    | NotAscii       // UnicodeDecodeError
    | WrongLength    // "Decrypted seed is not 64 characters"
    | NotHexInt      // ValueError of int(hex_seed, 16)

  /** The checks of decrypt_seed on the decoded text: strip, 64 characters, int(_, 16). */
  function ValidateHexSeed(text: string): (r: Result<string, DecryptError>)
    ensures r.Success? <==> |Strip(text)| == 64 && IsHexLiteral(Strip(text))
    ensures r.Success? ==> r.value == Strip(text) && IsStripped(r.value)
    ensures |Strip(text)| != 64 ==> r == Failure(WrongLength)
    ensures |Strip(text)| == 64 && !IsHexLiteral(Strip(text)) ==> r == Failure(NotHexInt)
  {
    var hexSeed := Strip(text);
    if |hexSeed| != 64 then Failure(WrongLength)
    else if !IsHexLiteral(hexSeed) then Failure(NotHexInt)
    else Success(hexSeed)
  }

  /** decrypt_seed(encrypted_seed_b64): loading the key, base64 decoding and
      RSA-OAEP/SHA-256 decryption form the partial function decrypt. */
  function DecryptSeed(decrypt: string -> Option<seq<Byte>>, encryptedSeedB64: string): (r: Result<string, DecryptError>)
    ensures decrypt(encryptedSeedB64).None? ==> r == Failure(Undecryptable)
    ensures decrypt(encryptedSeedB64).Some? && AsciiDecode(decrypt(encryptedSeedB64).value).None? ==>
      r == Failure(NotAscii)
    ensures decrypt(encryptedSeedB64).Some? && AsciiDecode(decrypt(encryptedSeedB64).value).Some? ==>
      r == ValidateHexSeed(AsciiDecode(decrypt(encryptedSeedB64).value).value)
    ensures r.Success? ==>
      decrypt(encryptedSeedB64).Some? && AsciiDecode(decrypt(encryptedSeedB64).value).Some?
  {
    match decrypt(encryptedSeedB64)
    case None => Failure(Undecryptable)
    case Some(plaintext) =>
      match AsciiDecode(plaintext)
      case None => Failure(NotAscii)
      case Some(text) => ValidateHexSeed(text)
  }

  // ---------- read_seed_from_file ----------

  datatype ReadError =
    | SeedMissing  // FileNotFoundError("Seed not decrypted yet")
    | InvalidSeed  // ValueError("Invalid seed in file")

  /** read_seed_from_file: the stripped contents of the seed file, which must be
      64 characters long. */
  function ReadSeedFromFile(seedFile: Option<string>): (r: Result<string, ReadError>)
    ensures seedFile.None? ==> r == Failure(SeedMissing)
    ensures seedFile.Some? && |Strip(seedFile.value)| != 64 ==> r == Failure(InvalidSeed)
    ensures r.Success? <==> seedFile.Some? && |Strip(seedFile.value)| == 64
    ensures r.Success? ==> r.value == Strip(seedFile.value) && IsStripped(r.value)
  {
    match seedFile
    case None => Failure(SeedMissing)
    case Some(contents) =>
      var hexSeed := Strip(contents);
      if |hexSeed| == 0 || |hexSeed| != 64 then Failure(InvalidSeed) else Success(hexSeed)
  }

  // ---------- responses ----------

  const Period: nat := 30

  /** Seconds left in the current 30-second step, at Unix time now. */
  function ValidFor(now: nat): (r: nat)
    ensures 1 <= r <= Period
    ensures (now + r) % Period == 0 && (now + r) / Period == now / Period + 1
    ensures Otp.TimeCode(now + r - 1) == Otp.TimeCode(now)
  {
    Period - now % Period
  }

  datatype Body =
    | StatusOk                          // {"status": "ok"}
    | ErrorMessage(message: string)     // {"error": message}
    | CodeBody(code: string, validFor: nat)  // {"code": code, "valid_for": valid_for}
    | ValidBody(valid: bool)            // {"valid": valid}

  /** A JSON response, or an exception the handler does not catch, which the
      framework answers with status 500 and no JSON body. */
  datatype Response = Json(status: nat, body: Body) | Unhandled

  class SeedService {
    /** The contents of /data/seed.txt, None while the file does not exist. */
    var seedFile: Option<string>

    constructor(seedFile: Option<string>)
      ensures this.seedFile == seedFile
    {
      this.seedFile := seedFile;
    }

    /** POST /decrypt-seed: only a successful decryption writes the seed file,
        replacing what it held. */
    method DecryptSeedEndpoint(decrypt: string -> Option<seq<Byte>>, encryptedSeed: string) returns (resp: Response)
      modifies this
      ensures DecryptSeed(decrypt, encryptedSeed).Success? ==>
        seedFile == Some(DecryptSeed(decrypt, encryptedSeed).value) && resp == Json(200, StatusOk)
      ensures DecryptSeed(decrypt, encryptedSeed).Failure? ==>
        seedFile == old(seedFile) && resp == Json(500, ErrorMessage("Decryption failed"))
    {
      var result := DecryptSeed(decrypt, encryptedSeed);
      if result.Success? {
        seedFile := Some(result.value);
        resp := Json(200, StatusOk);
      } else {
        resp := Json(500, ErrorMessage("Decryption failed"));
      }
    }

    /** GET /generate-2fa at Unix time now. */
    method Generate2fa(hotp: Otp.Hotp, now: nat) returns (resp: Response)
      ensures seedFile.None? ==> resp == Json(500, ErrorMessage("Seed not decrypted yet"))
      ensures seedFile.Some? && |Strip(seedFile.value)| != 64 ==> resp == Json(500, ErrorMessage("Invalid seed"))
      ensures seedFile.Some? && |Strip(seedFile.value)| == 64 ==>
        var hexSeed := Strip(seedFile.value);
        (resp == Unhandled <==> FromHex(hexSeed).Failure?) &&
        (FromHex(hexSeed).Success? ==>
          resp == Json(200, CodeBody(hotp(FromHex(hexSeed).value, Otp.TimeCode(now)), ValidFor(now))))
    {
      var seed := ReadSeedFromFile(seedFile);
      if seed.Failure? {
        if seed.error == SeedMissing {
          resp := Json(500, ErrorMessage("Seed not decrypted yet"));
        } else {
          resp := Json(500, ErrorMessage("Invalid seed"));
        }
        return;
      }
      var code := TotpUtils.GenerateTotpCode(hotp, seed.value, now);
      if code.Failure? {
        resp := Unhandled;
        return;
      }
      resp := Json(200, CodeBody(code.value, ValidFor(now)));
    }

    /** POST /verify-2fa at Unix time now; code None stands for a request without one. */
    method Verify2fa(hotp: Otp.Hotp, code: Option<string>, now: nat) returns (resp: Response)
      ensures code.None? || code.value == "" ==> resp == Json(400, ErrorMessage("Missing code"))
      ensures code.Some? && code.value != "" ==>
        (seedFile.None? ==> resp == Json(500, ErrorMessage("Seed not decrypted yet"))) &&
        (seedFile.Some? && |Strip(seedFile.value)| != 64 ==> resp == Json(500, ErrorMessage("Invalid seed")))
      ensures code.Some? && code.value != "" && seedFile.Some? && |Strip(seedFile.value)| == 64 ==>
        var hexSeed := Strip(seedFile.value);
        (resp == Unhandled <==> FromHex(hexSeed).Failure? || now < Otp.Interval) &&
        (FromHex(hexSeed).Success? && now >= Otp.Interval ==>
          resp == Json(200, ValidBody(Otp.CodeInRange(hotp, FromHex(hexSeed).value, code.value,
                                                      Otp.TimeCode(now) - 1, Otp.TimeCode(now) + 1))))
    {
      if code.None? || code.value == "" {
        resp := Json(400, ErrorMessage("Missing code"));
        return;
      }
      var seed := ReadSeedFromFile(seedFile);
      if seed.Failure? {
        if seed.error == SeedMissing {
          resp := Json(500, ErrorMessage("Seed not decrypted yet"));
        } else {
          resp := Json(500, ErrorMessage("Invalid seed"));
        }
        return;
      }
      var valid := TotpUtils.VerifyTotpCode(hotp, seed.value, code.value, now, 1);
      VerifyOutcome(hotp, seed.value, code.value, now);
      if valid.Failure? {
        resp := Unhandled;
        return;
      }
      resp := Json(200, ValidBody(valid.value));
    }
  }

  // ---------- properties ----------

  /** verify_totp_code(hex_seed, code, valid_window=1) on a 64-character seed
      raises iff bytes.fromhex does or the clock is in the first 30-second step
      (the counter one step back is negative); otherwise it answers whether the
      code is that of the previous, the current or the next step. */
  lemma VerifyOutcome(hotp: Otp.Hotp, hexSeed: string, code: string, now: nat)
    requires |hexSeed| == 64
    ensures var r := TotpUtils.VerifyTotpCode(hotp, hexSeed, code, now, 1);
      (r.Failure? <==> FromHex(hexSeed).Failure? || now < Otp.Interval) &&
      (FromHex(hexSeed).Success? && now >= Otp.Interval ==>
        r == Success(Otp.CodeInRange(hotp, FromHex(hexSeed).value, code, Otp.TimeCode(now) - 1, Otp.TimeCode(now) + 1)))
  {
    if FromHex(hexSeed).Success? {
      if now >= Otp.Interval {
        TotpUtils.VerifyTotpCodeWindow(hotp, hexSeed, code, now, 1);
      } else {
        Otp.VerifyBeforeEpochWindow(hotp, TotpUtils.HexSeedToBase32(hexSeed).value, code, now, 1);
      }
    }
  }

  lemma {:induction false} DigitTailOfHexDigits(v: string)
    requires AllHexDigits(v)
    ensures DigitTail(v)
  {
    if v != [] {
      DigitTailOfHexDigits(v[1..]);
    }
  }

  /** Every non-empty string of hex digits passes int(_, 16). */
  lemma HexDigitsAreLiteral(s: string)
    requires |s| > 0 && AllHexDigits(s)
    ensures IsHexLiteral(s)
  {
    assert IsHexDigit(s[0]) && !IsHexDigit('x') && !IsHexDigit('X');
    DigitTailOfHexDigits(s[1..]);
  }

  lemma {:induction false} DigitTailChars(v: string)
    requires DigitTail(v)
    ensures forall i :: 0 <= i < |v| ==> IsHexDigit(v[i]) || v[i] == '_'
  {
    if v != [] {
      if IsHexDigit(v[0]) && DigitTail(v[1..]) {
        DigitTailChars(v[1..]);
        assert forall i :: 1 <= i < |v| ==> v[i] == v[1..][i - 1];
      } else {
        DigitTailChars(v[2..]);
        assert forall i :: 2 <= i < |v| ==> v[i] == v[2..][i - 2];
      }
    }
  }

  /** int(_, 16) accepts only hex digits, signs, x, X and underscores. */
  lemma HexLiteralChars(s: string)
    requires IsHexLiteral(s)
    ensures forall i :: 0 <= i < |s| ==> IsLiteralChar(s[i])
  {
    var k := if |s| > 0 && (s[0] == '+' || s[0] == '-') then 1 else 0;
    var u := s[k..];
    var j := if |u| >= 2 && u[0] == '0' && (u[1] == 'x' || u[1] == 'X') then
               (if |u| >= 3 && u[2] == '_' then 3 else 2) else 0;
    var v := u[j..];
    assert IsDigitRun(v);
    DigitTailChars(v[1..]);
    forall i | 0 <= i < |s| ensures IsLiteralChar(s[i]) {
      if i >= k + j + 1 {
        assert s[i] == v[1..][i - k - j - 1];
      } else if i == k + j {
        assert s[i] == v[0];
      }
    }
  }

  /** Without signs, x, X or underscores, int(_, 16) accepts exactly the
      non-empty strings of hex digits. */
  lemma HexLiteralPlainDigits(s: string)
    requires forall i :: 0 <= i < |s| ==> s[i] !in "+-xX_"
    ensures IsHexLiteral(s) <==> |s| > 0 && AllHexDigits(s)
  {
    if IsHexLiteral(s) {
      HexLiteralChars(s);
      assert s != [] by {
        assert !IsDigitRun([]);
      }
      forall i | 0 <= i < |s| ensures IsHexDigit(s[i]) {
        assert IsLiteralChar(s[i]) && s[i] !in "+-xX_";
      }
    } else if |s| > 0 && AllHexDigits(s) {
      HexDigitsAreLiteral(s);
    }
  }

  /** "0x" followed by 62 zeros is 64 characters and a valid literal, so
      decrypt_seed accepts it, but bytes.fromhex rejects the 'x' at position 1:
      both endpoints then answer with an unhandled error. */
  lemma PrefixedSeedAccepted(z: string)
    requires |z| == 62 && forall i :: 0 <= i < 62 ==> z[i] == '0'
    ensures ValidateHexSeed("0x" + z) == Success("0x" + z)
    ensures ReadSeedFromFile(Some("0x" + z)) == Success("0x" + z)
    ensures FromHex("0x" + z) == Failure(1)
  {
    var s := "0x" + z;
    PrefixedSeedIsLiteral(z);
    assert [] + s + [] == s;
    StripUnique([], s, []);
    PrefixedSeedNotHex(z);
  }

  lemma PrefixedSeedIsLiteral(z: string)
    requires |z| == 62 && forall i :: 0 <= i < 62 ==> z[i] == '0'
    ensures IsStripped("0x" + z) && IsHexLiteral("0x" + z)
  {
    var s := "0x" + z;
    assert s[0] == '0' && s[1] == 'x' && s[2] == '0' && s[63] == '0';
    assert s[2..] == z;
    assert AllHexDigits(z);
    HexDigitsAreLiteral(z);
  }

  lemma PrefixedSeedNotHex(z: string)
    requires |z| == 62 && forall i :: 0 <= i < 62 ==> z[i] == '0'
    ensures FromHex("0x" + z) == Failure(1)
  {
    var s := "0x" + z;
    assert s[0] == '0' && s[1] == 'x';
    assert forall i :: 0 <= i < |s| ==> s[i] as int < 128;
    AsciiFromHex(s);
  }

  lemma StoredSeedReadsBack(text: string)
    requires ValidateHexSeed(text).Success?
    ensures ReadSeedFromFile(Some(ValidateHexSeed(text).value)) == Success(ValidateHexSeed(text).value)
  {
    StripIdempotent(text);
  }

  /** For a seed stored by decrypt_seed, generate_totp_code raises exactly when
      the seed is not 64 plain hex digits (it holds a sign, a prefix or an underscore). */
  lemma StoredSeedGenerates(hotp: Otp.Hotp, text: string, now: nat)
    requires ValidateHexSeed(text).Success?
    ensures var seed := ValidateHexSeed(text).value;
      TotpUtils.GenerateTotpCode(hotp, seed, now).Success? <==> AllHexDigits(seed)
  {
    var seed := ValidateHexSeed(text).value;
    HexLiteralChars(seed);
    LiteralSeedGenerates(hotp, seed, now);
  }

  /** Of the 64-character strings over the literal alphabet, generate_totp_code
      accepts exactly those made of hex digits alone. */
  lemma LiteralSeedGenerates(hotp: Otp.Hotp, seed: string, now: nat)
    requires |seed| == 64 && forall i :: 0 <= i < |seed| ==> IsLiteralChar(seed[i])
    ensures TotpUtils.GenerateTotpCode(hotp, seed, now).Success? <==> AllHexDigits(seed)
  {
    if AllHexDigits(seed) {
      FromHexDigits(seed);
    } else {
      var k :| 0 <= k < 64 && !IsHexDigit(seed[k]);
      assert IsLiteralChar(seed[k]);
      FromHexRejects(seed, k);
    }
  }
}
