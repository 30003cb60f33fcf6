/** decrypt_seed.py: the stand-alone decryption step. Base64 decoding and
    RSA-OAEP/SHA-256 decryption under the private key are one opaque partial
    function, UTF-8 decoding another; after them the text must be exactly 64
    characters and lower-case to hex digits, checked in that order. */
module SeedDecrypt {
  import opened Wrappers
  import opened Text
  import opened Hex

  /** Why decrypt_seed raised. */
  datatype DecryptError =
    | Undecryptable  // binascii.Error or ValueError of b64decode / private_key.decrypt
    | NotUtf8        // UnicodeDecodeError
    | WrongLength    // "Seed must be exactly 64 hex characters"
    | InvalidHex     // "Invalid hex seed"

  /** all(c in "0123456789abcdef" for c in seed_str.lower()) */
  predicate LowerCaseHex(s: string)
  {
    forall i :: 0 <= i < |s| ==> IsLowerHexDigit(LowerChar(s[i]))
  }

  /** Step 4 of decrypt_seed: the format checks on the decoded text. */
  function ValidateSeed(seedStr: string): (r: Result<string, DecryptError>)
    ensures r.Success? <==> |seedStr| == 64 && LowerCaseHex(seedStr)
    ensures r.Success? ==> r.value == seedStr
    ensures |seedStr| != 64 ==> r == Failure(WrongLength)
    ensures |seedStr| == 64 && !LowerCaseHex(seedStr) ==> r == Failure(InvalidHex)
  {
    if |seedStr| != 64 then Failure(WrongLength)
    else if !LowerCaseHex(seedStr) then Failure(InvalidHex)
    else Success(seedStr)
  }

  /** decrypt_seed(encrypted_seed_b64, private_key) */
  function DecryptSeed(decrypt: string -> Option<seq<Byte>>, utf8: seq<Byte> -> Option<string>,
                       encryptedSeedB64: string): (r: Result<string, DecryptError>)
    ensures decrypt(encryptedSeedB64).None? ==> r == Failure(Undecryptable)
    ensures decrypt(encryptedSeedB64).Some? && utf8(decrypt(encryptedSeedB64).value).None? ==>
      r == Failure(NotUtf8)
    ensures decrypt(encryptedSeedB64).Some? && utf8(decrypt(encryptedSeedB64).value).Some? ==>
      r == ValidateSeed(utf8(decrypt(encryptedSeedB64).value).value)
    ensures r.Success? ==>
      decrypt(encryptedSeedB64).Some? && utf8(decrypt(encryptedSeedB64).value) == Some(r.value)
  {
    match decrypt(encryptedSeedB64)
    case None => Failure(Undecryptable)
    case Some(plaintext) =>
      match utf8(plaintext)
      case None => Failure(NotUtf8)
      case Some(seedStr) => ValidateSeed(seedStr)
  }

  // ---------- properties ----------

  /** The digits accepted after lower-casing are the hex digits of either case. */
  lemma LowerCaseHexIsHex(s: string)
    ensures LowerCaseHex(s) <==> AllHexDigits(s)
  {
    forall i | 0 <= i < |s| ensures IsLowerHexDigit(LowerChar(s[i])) <==> IsHexDigit(s[i]) {
    }
  }

  /** Every returned seed is 64 hex digits of either case, returned as decrypted:
      not stripped and not lower-cased. */
  lemma AcceptedSeed(seedStr: string)
    requires ValidateSeed(seedStr).Success?
    ensures var seed := ValidateSeed(seedStr).value;
      seed == seedStr && |seed| == 64 && AllHexDigits(seed)
  {
    LowerCaseHexIsHex(seedStr);
  }

  /** Upper-case A-F pass the check; e.g. 64 'A's are returned as they are. */
  lemma UpperCaseAccepted(s: string)
    requires |s| == 64 && forall i :: 0 <= i < 64 ==> s[i] == 'A'
    ensures ValidateSeed(s) == Success(s)
  {
  }

  /** No whitespace is stripped: a trailing newline makes the text too long. */
  lemma TrailingNewlineRejected(s: string)
    requires |s| == 64
    ensures ValidateSeed(s + "\n") == Failure(WrongLength)
  {
  }

  /** Length is checked before content: text failing both reports the length. */
  lemma LengthCheckedFirst(s: string)
    requires |s| != 64 && !LowerCaseHex(s)
    ensures ValidateSeed(s) == Failure(WrongLength)
  {
  }
}
