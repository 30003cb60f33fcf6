# TOTP seed service — a Dafny model

This project models the seed and one-time-password pipeline of a small
two-factor authentication service written in Python.

1. An RSA-encrypted, Base64-encoded seed is decrypted to a 64-character hex string.
2. The seed is validated and stored in a seed file.
3. It is read back from the file, hex-decoded and Base32-encoded.
4. The Base32 secret is handed to pyotp's TOTP. TOTP has six digits, a
   30-second step, SHA-1 and T0 = 0, as in RFC 6238.
5. The code is produced (`now()`) or checked with a tolerance of whole steps
   (`verify(code, valid_window)`).

What is modelled:

- The three HTTP endpoints of the service (`main.py`).
- Its two helper modules (`totp.py`, `totp_utils.py`), which do the same
  conversion with different input handling.
- The stand-alone decryptor (`decrypt_seed.py`).
- The cron logger (`scripts/log_2fa_cron.py`).

## Layout

| file | module | models |
|---|---|---|
| `wrappers.dfy` | `Wrappers`, `Errors` | `Option`/`Result` and the exceptions the pipeline raises |
| `text.dfy` | `Text` | `str.isspace`, `str.strip`, ASCII `str.lower` |
| `hex.dfy` | `Hex` | `bytes.fromhex` on a `str`, as in CPython 3.11: a non-ASCII text fails at its first non-ASCII character; an ASCII text fails at the first character that breaks a digit pair |
| `base32.dfy` | `Base32` | `base64.b32encode` and `b32decode(casefold=True)`, bit by bit (RFC 4648 section 6) |
| `otp.dfy` | `Otp` | pyotp's `TOTP`: `byte_secret`, `at`, `now`, `verify`; HOTP of RFC 4226 |
| `totp.py` → `totp.dfy` | `Totp` | strip + lower, then conversion and pyotp |
| `totp_utils.py` → `totp_utils.dfy` | `TotpUtils` | conversion of the raw seed and pyotp |
| `decrypt_seed.py` → `decrypt_seed.dfy` | `SeedDecrypt` | UTF-8 text, 64 characters, lower-case hex alphabet |
| `scripts/log_2fa_cron.py` → `log_2fa_cron.dfy` | `LogCron` | the seed reader, the never-raising code generator, the log line |
| `main.py` → `service.dfy` | `Service` | ASCII decoding, `int(_, 16)`, the seed file, and the class `SeedService` with the three endpoints |
| `comparison.dfy` | `Comparison` | how the modules differ on the same seed |

### How the model is set up

- **Exceptions are results.** A Python exception is a `Failure` of a
  `Result`. FastAPI answers an exception a handler does not catch with a
  plain 500 error; the model writes that as `Response.Unhandled`.
- **The seed file is a field.** It is the field `seedFile: Option<string>` of
  `SeedService`: `None` while the file does not exist, otherwise its
  contents. `DecryptSeedEndpoint` is the only method that changes it.
- **HOTP is a parameter.** It has the type `Otp.Hotp = (key, counter) -> Code`,
  where the result is always six decimal digits. `Otp.HotpCode` writes out
  RFC 4226 over an HMAC-SHA1 parameter: the 8-byte big-endian counter, the
  dynamic truncation, and value mod 10^6 with zero padding. `Otp.Rfc4226`
  makes it an instance of `Hotp`.
- **The clock is an argument.** `time.time()` and pyotp's clock are a `nat` of
  Unix seconds passed in. The time step is `t / 30`.
- **pyotp's `verify` is a loop over offsets.** For `valid_window` w it tries
  `range(-w, w + 1)`, earliest first, and stops at the first match:
  - a negative window tries nothing and answers false;
  - a window of 0 compares with `at(t)`, which the model shows to be the
    same as the loop over the single offset 0;
  - `generate_otp` raises for a negative counter, so the loop raises when
    it reaches one before any match.

### Behaviour of the code that the proofs bring out

- **`main.py` does not normalise the seed.** `main.decrypt_seed` stores the
  stripped text as it is, without lower-casing it, and accepts whatever
  `int(_, 16)` accepts: a sign, a `0x` prefix and underscores. A stored seed
  such as `"0x"` followed by 62 zeros then makes `/generate-2fa` and
  `/verify-2fa` fail with an unhandled exception, because `bytes.fromhex`
  rejects it (`Service.PrefixedSeedAccepted`, `Service.StoredSeedGenerates`).
- **`/verify-2fa` can raise.** With `valid_window=1`, `/verify-2fa` raises
  during the first 30 seconds after the epoch, because the counter one step
  back is −1 and pyotp refuses a negative counter (`Service.VerifyOutcome`).
- **`totp.py` is more lenient than `totp_utils.py`.** `totp.py` strips and
  lower-cases the seed first, so it accepts padded input that
  `totp_utils.py` rejects (`Comparison.TotpToleratesPadding`). Both accept
  blanks inside the seed, which `bytes.fromhex` skips
  (`Totp.HexSeedWithInnerBlanks`).
- **The two decryptors check differently.** `decrypt_seed.py` does not
  strip; `main.py` does. Each accepts a seed the other rejects
  (`Comparison.PrefixedSeedSplitsDecrypters`,
  `Comparison.PaddedSeedSplitsDecrypters`).
- **Codes are compared after NFKC normalisation.** pyotp's `verify` compares
  through `strings_equal`, which normalises both strings to NFKC first. So
  the program also accepts a digit string that is only NFKC-equivalent to the
  code, such as the fullwidth `"１２３４５６"` for `123456`. The model compares
  exactly; `Otp.VerifyRejectsNonCode` holds for that exact comparison only.

## Model

| member | source | states |
|---|---|---|
| Text.Strip | main.py:49 | the stripped string has no `str.isspace` character at either end and is no longer than the input |
| Text.IsWhitespace | main.py:49 | the `str.isspace` set that `strip` removes; no blank is a hex digit or an ASCII letter |
| Text.IsAsciiWhitespace | totp_utils.py:10 | the blanks `bytes.fromhex` skips; each is also an `str.isspace` blank, and ASCII |
| Text.StripUnique | main.py:49 | stripping a whitespace run, a string that starts and ends with a non-blank, and a whitespace run gives exactly that middle string |
| Text.StripIdempotent | main.py:64 | stripping a stripped seed again changes nothing, so reading back a stored seed returns it unchanged |
| Text.StripPadded | totp.py:9 | surrounding whitespace does not change the stripped value |
| Text.LowerStrip | totp.py:9 | lower-casing and stripping commute |
| Text.LowerIdempotent | totp.py:9 | lower-casing twice is lower-casing once |
| Text.StripHexDigits | totp.py:9 | a string of hex digits is its own strip |
| Text.StripBetweenNonBlanks | main.py:49 | a string with a non-blank at each end is its own strip |
| Text.Lower | totp.py:9 | the result has no upper-case ASCII letter; each character is kept or is an upper-case letter moved to lower case |
| Text.LowerKeepsStripped | totp.py:9 | lower-casing a stripped string leaves no blank at either end |
| Text.LowerUnchanged | totp.py:9 | a string without upper-case letters is its own lower-case form |
| Text.TrimStart | main.py:49 | the leading half of `strip`: it removes a whitespace prefix and leaves a suffix that does not start with whitespace |
| Text.TrimEnd | main.py:49 | the trailing half of `strip`: it removes a whitespace suffix and leaves a prefix that does not end with whitespace |
| Hex.FirstNonAscii | totp_utils.py:10 | the index of the first non-ASCII character, or the length when there is none |
| Hex.FromHex | totp_utils.py:10 | a text with a non-ASCII character fails at the first one; a failure position lies within the text or at its end; an accepted text holds only hex digits and ASCII whitespace |
| Hex.FromHexAtAccepts | totp_utils.py:10 | reading pairs from a position succeeds only if every later character is a hex digit or ASCII whitespace |
| Hex.AsciiFromHex | totp_utils.py:10 | an ASCII text is read pair by pair from its start |
| Hex.FromHexAt | totp_utils.py:10 | reading pairs from a position fails at a position between it and the end (the end for a missing second digit) |
| Hex.FromHexAtDigits | totp_utils.py:10 | from an even position, an even-length string of hex digits decodes to one byte per digit pair, high digit first |
| Hex.FromHexDigits | totp_utils.py:10 | an even-length string of hex digits decodes to half as many bytes, each 16 × high digit + low digit |
| Hex.FromHexAtRejects | totp_utils.py:10 | a character that is neither a hex digit nor ASCII whitespace, at or after the position, makes the decoding raise |
| Hex.FromHexRejects | totp_utils.py:10 | such a character anywhere in the seed makes `bytes.fromhex` raise |
| Hex.FromHexAtLower | totp.py:9-15 | from any position, ASCII lower-casing (`Text.Lower`) of the input does not change the decoding or its error position |
| Hex.FirstNonAsciiLower | totp.py:9-15 | ASCII lower-casing (`Text.Lower`) does not move the first non-ASCII character |
| Hex.FromHexLower | totp.py:9-15 | `bytes.fromhex` of the ASCII lower-casing (`Text.Lower`) of s equals `bytes.fromhex(s)`, errors included |
| Hex.FromHexSkipsBlanks | totp.py:15 | blanks before a digit pair are skipped: `"00  "` + 60 zeros is 64 characters and decodes to 31 zero bytes |
| Hex.FromHexAtShift | totp_utils.py:10 | decoding a string and decoding it after a prefix, from just past the prefix, give the same bytes |
| Base32.Symbol | totp_utils.py:11 | each 5-bit value maps to its character in the RFC 4648 alphabet |
| Base32.SymbolValue | totp_utils.py:16 | decoding accepts exactly the alphabet and lower-case letters (casefold); an alphabet character gives its own index, a lower-case letter the index of its upper-case form |
| Base32.SymbolInverse | totp_utils.py:11-16 | decoding a symbol gives back its value |
| Base32.FromToBits | totp_utils.py:11 | reading the k low bits of a value below 2^k gives the value back |
| Base32.ToFromBits | totp_utils.py:11 | writing out the value of a bit string at its own width gives the bit string back |
| Base32.BytesOfBitsOf | totp_utils.py:11-16 | regrouping the bits of a byte string into bytes gives the bytes back, whatever fewer-than-eight trailing bits follow |
| Base32.DecodeEncodeBits | totp_utils.py:11-16 | decoding the symbols of a bit string gives the bits, followed by the zero bits that fill the last group |
| Base32.DecodeEncodeGroup | totp_utils.py:11-16 | a group of five bits in front of a tail that round-trips round-trips too |
| Base32.EncodeBitsCons | totp_utils.py:11 | the first symbol of an encoding stands for its first five bits |
| Base32.DecodeGroupCons | totp_utils.py:16 | decoding that symbol in front of a decodable rest gives those five bits first |
| Base32.DecodeEncodeLastGroup | totp_utils.py:11-16 | a final group of one to four bits becomes one symbol that decodes to those bits and zero bits |
| Base32.TrimPaddingOf | totp_utils.py:16 | removing the trailing `=` of symbols followed by padding leaves exactly the symbols |
| Base32.SymbolCount | totp_utils.py:11 | n bytes give ⌈8n/5⌉ symbols; the padding count is 0, 1, 3, 4 or 6; together they make 8 × ⌈n/5⌉ characters |
| Base32.Encode | totp_utils.py:11 | `b32encode` of n bytes is 8 × ⌈n/5⌉ characters: ⌈8n/5⌉ alphabet symbols, then only `=` |
| Base32.Decode | totp_utils.py:16 | `b32decode` raises for a length that is not a multiple of eight or a padding length other than 0, 1, 3, 4 or 6; it yields ⌊5m/8⌋ bytes for m symbols |
| Base32.TrimPadding | totp_utils.py:16 | `rstrip(b'=')` in `b32decode`: a prefix of the text, the dropped tail is all `=`, and no `=` is left at the end |
| Base32.EncodeBits | totp_utils.py:11 | the symbol loop of `b32encode`: one alphabet symbol per five bits, the last group filled with zeros |
| Base32.DecodeSymbols | totp_utils.py:16 | the symbol loop of `b32decode`: five bits per accepted symbol |
| Base32.EncodeFullGroups | totp_utils.py:11 | an encoding is a whole number of 8-character groups |
| Base32.EncodePadding | totp_utils.py:11-16 | the padding of an encoding has a length `b32decode` accepts and trims away to the symbols |
| Base32.EncodeSeedBytes | totp_utils.py:11 | the 32 bytes of a seed encode to 52 symbols followed by `====` |
| Base32.DecodeEncode | totp_utils.py:11-16 | `b32decode(b32encode(bs)) == bs` for every byte string |
| Otp.TimeCode | totp_utils.py:17 | the step number t / 30: the step starts at most 30 seconds before t |
| Otp.CounterBytes | totp_utils.py:17 | the counter message is at least 8 bytes, and exactly 8 for every counter below 256^8 |
| Otp.MinimalBytesLength | totp_utils.py:17 | a counter fits in k bytes exactly when it is below 256^k |
| Otp.MinimalBytes | totp_utils.py:17 | the loop in `int_to_bytestring`: the big-endian bytes of the counter without leading zeros, empty exactly for 0 |
| Otp.CounterBytesValue | totp_utils.py:17 | the counter message HOTP signs is the big-endian form of the time step |
| Otp.Truncate | totp_utils.py:17 | the dynamic truncation of RFC 4226 section 5.3 is a 31-bit value |
| Otp.Decimal | totp_utils.py:17 | the zero-padded decimal of a value has exactly the given width, all decimal digits |
| Otp.DecimalRoundTrip | totp_utils.py:17 | a value below 10^width reads back from its zero-padded decimal |
| Otp.HotpCode | totp_utils.py:17 | HOTP over HMAC-SHA1 is six decimal digits whose value is the truncated HMAC of the counter mod 10^6 |
| Otp.Rfc4226 | totp_utils.py:17 | the HOTP pyotp computes, over an HMAC parameter: each code reads back as the truncated HMAC of the counter mod 10^6 |
| Otp.KeyBytes | totp_utils.py:16 | `byte_secret` of a secret whose length is a multiple of eight is its `b32decode` |
| Otp.KeyBytesOfEncoding | totp_utils.py:11-16 | pyotp's `byte_secret` recovers exactly the seed bytes from the Base32 secret |
| Otp.CodeAt | totp_utils.py:17 | a negative counter raises first, then an undecodable secret; otherwise the result is the six-digit HOTP of the key and the counter |
| Otp.At | totp_utils.py:17 | `at(t, offset)` succeeds iff the step plus the offset is not negative and the secret decodes, and is then the HOTP of that step |
| Otp.Now | totp_utils.py:17 | `now()` succeeds iff the secret decodes, and is then the six-digit HOTP of step t / 30 |
| Otp.VerifyFrom | totp_utils.py:23 | an empty range of offsets answers false; a decodable secret and a non-negative first step give an answer; an undecodable secret raises for a non-empty range |
| Otp.Verify | totp_utils.py:23 | a negative window answers false; a decodable secret and a window within the clock give an answer; an undecodable secret raises for any window of 0 or more |
| Otp.NowCode | totp_utils.py:17 | `now()` for a decodable secret is the HOTP of its key at step t / 30 |
| Otp.NowWithinStep | totp_utils.py:17 | two instants in the same 30-second step get the same code |
| Otp.CodeInRangeMeans | totp_utils.py:23 | the acceptance condition holds iff some non-negative step in the range has the code |
| Otp.CodeInRangeHas | totp_utils.py:23 | a step in the range whose HOTP is the code satisfies the acceptance condition |
| Otp.VerifyFromMatches | totp_utils.py:23 | the loop over offsets, with no negative step in it, answers whether a step in the range has the code |
| Otp.VerifyWindow | totp_utils.py:23 | `verify(code, w)` with 0 ≤ w ≤ the step answers whether the code is that of a step within w of the current one |
| Otp.VerifyWindowZero | totp.py:46 | `verify(code, 0)` raises as `now()` does or compares the code with `now()` |
| Otp.VerifyNegativeWindow | totp.py:38-46 | a negative window accepts nothing and raises nothing |
| Otp.VerifyBeforeEpochWindow | totp_utils.py:23 | a window reaching back before step 0 makes `verify` raise |
| Otp.VerifyFromRejectsNonCode | totp_utils.py:23 | with exact comparison, the loop never accepts a string that is not six decimal digits |
| Otp.VerifyRejectsNonCode | totp_utils.py:23 | with exact comparison, `verify` never accepts a string that is not six decimal digits, for any window |
| Otp.VerifyAccepts | totp_utils.py:23 | the code of any step within the window is accepted |
| Otp.VerifyOwnCode | totp_utils.py:17-23 | the current code verifies at the same instant, for every window the clock allows |
| Otp.VerifyNextStep | totp.py:45-46 | the next step's code verifies now for any window from 1 up to what the clock allows |
| Totp.Normalize | totp.py:9 | the normalised seed is as long as the stripped seed, has no blank at either end and no upper-case letter |
| Totp.HexSeedToBase32 | totp.py:5-22 | fails with the stripped length unless stripping and lower-casing leave 64 characters; succeeds iff `bytes.fromhex` accepts them; the secret decodes back to those bytes |
| Totp.GenerateTotpCode | totp.py:25-35 | succeeds iff the conversion does; the code is the HOTP of the normalised seed's bytes at the current step |
| Totp.HexSeedToBase32Padded | totp.py:9 | surrounding whitespace does not change the conversion or its errors |
| Totp.HexSeedToBase32CaseInsensitive | totp.py:9 | the conversion ignores the case of ASCII letters |
| Totp.NormalizeHexSeed | totp.py:9 | a whitespace-padded hex seed normalises to its lower-case digits |
| Totp.HexSeedKey | totp.py:9-15 | a whitespace-padded 64-digit seed converts, and its key is the 32 bytes of its digit pairs |
| Totp.HexSeedSecretShape | totp.py:18-22 | the secret of a 32-byte key is 56 characters: 52 symbols and `====` |
| Totp.InnerBlanksNormalized | totp.py:9 | `"00"`, two blanks and 60 zeros is left unchanged by stripping and lower-casing |
| Totp.InnerBlanksChars | totp.py:9 | that text is 64 characters of zeros and blanks, a zero at each end |
| Totp.HexSeedWithInnerBlanks | totp.py:9-22 | that seed with blanks inside passes the 64-character check and converts, with a key of only 31 bytes |
| Totp.VerifyTotpCode | totp.py:38-46 | a failed conversion raises its error; for a convertible seed a negative window answers false and a window within the clock gives an answer |
| Totp.GeneratedCodeVerifies | totp.py:25-46 | a generated code verifies at the same instant for every window the clock allows |
| Totp.VerifyTotpCodeWindow | totp.py:38-46 | for a convertible seed, verification answers whether the code is that of a step within the window |
| TotpUtils.HexSeedToBase32 | totp_utils.py:6-11 | fails with SeedLength unless the raw seed has 64 characters; succeeds iff `bytes.fromhex` accepts it; the secret decodes back to those bytes |
| TotpUtils.GenerateTotpCode | totp_utils.py:14-17 | succeeds iff the conversion does; the code is six digits, the HOTP of the seed bytes at step t / 30 |
| TotpUtils.NonHexSeedRejected | totp_utils.py:10 | a 64-character seed with a non-hex, non-blank character fails with NonHexadecimal |
| TotpUtils.CaseInsensitive | totp_utils.py:6-11 | the conversion ignores letter case |
| TotpUtils.PaddedSeedRejected | totp_utils.py:7-8 | a leading blank makes a 64-digit seed fail on its length of 65 |
| TotpUtils.VerifyTotpCode | totp_utils.py:20-23 | a failed conversion raises its error; for a convertible seed a negative window answers false and a window within the clock gives an answer |
| TotpUtils.GeneratedCodeVerifies | totp_utils.py:14-23 | a generated code verifies at the same instant for every window the clock allows |
| TotpUtils.VerifyTotpCodeWindow | totp_utils.py:20-23 | for a convertible seed, verification answers whether the code is that of a step within the window |
| TotpUtils.ZeroSeed | test_totp.py:3-9 | the all-zero seed gives the HOTP of 32 zero bytes, and after the first step that code verifies with the default window |
| SeedDecrypt.ValidateSeed | decrypt_seed.py:27-34 | accepts iff 64 characters and all lower-case to hex digits; the length check raises first; the seed is returned unchanged |
| SeedDecrypt.LowerCaseHex | decrypt_seed.py:31 | the alphabet check: every character, once ASCII lower-cased, is one of `0123456789abcdef` |
| SeedDecrypt.DecryptSeed | decrypt_seed.py:6-34 | undecryptable input fails with Undecryptable, a plaintext that is not UTF-8 with NotUtf8; otherwise the result is the validation of the decoded text, and an accepted seed is that text |
| SeedDecrypt.LowerCaseHexIsHex | decrypt_seed.py:31 | the lower-case alphabet check accepts exactly the strings of hex digits, either case |
| SeedDecrypt.AcceptedSeed | decrypt_seed.py:28-34 | an accepted seed is 64 hex digits, returned as given |
| SeedDecrypt.UpperCaseAccepted | decrypt_seed.py:31-34 | an upper-case seed is accepted and returned without lower-casing |
| SeedDecrypt.TrailingNewlineRejected | decrypt_seed.py:28-29 | a seed with a trailing newline fails on its length, since nothing strips it |
| SeedDecrypt.LengthCheckedFirst | decrypt_seed.py:28-32 | a seed that is both too short or long and not hex reports the length |
| LogCron.LoadSeed | scripts/log_2fa_cron.py:9-14 | None iff the file is missing, otherwise its stripped contents |
| LogCron.HexToBase32 | scripts/log_2fa_cron.py:16-19 | succeeds iff `bytes.fromhex` does, whatever the length; a failure carries its position; the secret is 8 × ⌈n/5⌉ characters and decodes back to the n bytes |
| LogCron.NatToString | scripts/log_2fa_cron.py:28 | `str(n)` is decimal digits that read back as n, one digit iff n < 10, with no leading zero |
| LogCron.Message | scripts/log_2fa_cron.py:28 | every message is non-empty; a `fromhex` message ends with the decimal position, which reads back as the error's position |
| LogCron.GenerateTotp | scripts/log_2fa_cron.py:21-28 | never raises: a seed `bytes.fromhex` accepts gives its HOTP at the current step, otherwise the `ERROR: ` text of the `fromhex` error; the result is a six-digit code iff the seed decodes, and starts with `ERROR: ` iff it does not |
| LogCron.Report | scripts/log_2fa_cron.py:34-38 | after the timestamp: the not-found message for a missing file; `" - 2FA Code: "` and the HOTP of the seed bytes at the current step for a decodable seed; `" - 2FA Code: ERROR: "` and the `fromhex` message otherwise |
| LogCron.LogLine | scripts/log_2fa_cron.py:30-40 | the printed line starts with the timestamp and continues with the report |
| LogCron.ReportTellsOutcome | scripts/log_2fa_cron.py:30-40 | the report tells the three outcomes apart: it is the not-found message iff the file is missing, a code iff the seed decodes, an `ERROR: ` text iff it does not |
| LogCron.RestTellsOutcome | scripts/log_2fa_cron.py:34-38 | the not-found message, a code after the marker and an error after the marker are distinguishable by their text |
| LogCron.EmptySeedGivesCode | scripts/log_2fa_cron.py:18-26 | an empty seed file gives the code of the empty key instead of an error |
| LogCron.HexToBase32AnyLength | scripts/log_2fa_cron.py:16-19 | any even-length hex string converts; its secret has 8 × ⌈(n/2)/5⌉ characters |
| Service.AsciiDecode | main.py:49 | `decode("ascii")` succeeds iff every byte is below 128, and then keeps every code point |
| Service.ValidateHexSeed | main.py:49-56 | accepts iff the stripped text has 64 characters and passes `int(_, 16)`; returns the stripped text; the length check raises first |
| Service.DecryptSeed | main.py:30-56 | fails with Undecryptable or NotAscii when decryption or ASCII decoding fails; otherwise the result is the validation of the decoded text |
| Service.ReadSeedFromFile | main.py:59-69 | fails with SeedMissing (`FileNotFoundError`) for a missing file and with InvalidSeed (`ValueError`) for a present file whose stripped contents are not 64 characters; succeeds iff they are, and returns them |
| Service.ValidFor | main.py:126-130 | the validity is 1 to 30 seconds and ends exactly at the next step boundary; the whole interval is in the current step |
| Service.SeedService.DecryptSeedEndpoint | main.py:84-103 | a successful decryption stores the seed and answers 200 `{"status": "ok"}`; a failure keeps the file and answers 500 "Decryption failed" |
| Service.SeedService.Generate2fa | main.py:108-135 | 500 "Seed not decrypted yet" or "Invalid seed" as the reader fails; unhandled iff `bytes.fromhex` rejects the stored seed; otherwise the current code and its ValidFor |
| Service.SeedService.Verify2fa | main.py:140-168 | 400 for a missing or empty code; the reader's 500s; unhandled iff the seed does not hex-decode or the clock is in step 0; otherwise whether the code is that of the previous, current or next step |
| Service.VerifyOutcome | main.py:163-164 | `verify_totp_code(seed, code, 1)` on a 64-character seed raises iff `bytes.fromhex` does or t < 30, and otherwise answers the ±1-step question |
| Service.IsHexLiteral | main.py:54 | a text `int(_, 16)` accepts is non-empty and ends with a hex digit |
| Service.DigitRunLast | main.py:54 | a digit run ends with a digit, never an underscore |
| Service.DigitTailLast | main.py:54 | a non-empty digit-run continuation ends with a digit |
| Service.DigitTailOfHexDigits | main.py:54 | any string of hex digits continues a digit run |
| Service.HexDigitsAreLiteral | main.py:54 | every non-empty string of hex digits passes `int(_, 16)` |
| Service.DigitTailChars | main.py:54 | a digit-run continuation holds only hex digits and underscores |
| Service.HexLiteralChars | main.py:54 | `int(_, 16)` accepts only hex digits, signs, `x`, `X` and `_` |
| Service.HexLiteralPlainDigits | main.py:54 | without signs, `x`, `X` or `_`, `int(_, 16)` accepts exactly the non-empty hex-digit strings |
| Service.PrefixedSeedIsLiteral | main.py:49-54 | `"0x"` + 62 zeros has no surrounding blanks and passes `int(_, 16)` |
| Service.PrefixedSeedNotHex | main.py:111-124 | `bytes.fromhex` rejects `"0x…"` at position 1 |
| Service.PrefixedSeedAccepted | main.py:49-69 | `"0x"` + 62 zeros is accepted by `decrypt_seed` and by the file reader, but `bytes.fromhex` rejects it at position 1 |
| Service.StoredSeedReadsBack | main.py:59-94 | a seed stored by `/decrypt-seed` reads back unchanged |
| Service.StoredSeedGenerates | main.py:111-124 | for a seed stored by `/decrypt-seed`, code generation succeeds iff it is 64 plain hex digits |
| Service.LiteralSeedGenerates | main.py:111-124 | among 64-character strings over the `int(_, 16)` alphabet, generation succeeds iff the string is all hex digits |
| Comparison.DecryptersAgree | decrypt_seed.py:28-34 | every seed `decrypt_seed.py` accepts, `main.decrypt_seed` accepts unchanged |
| Comparison.PrefixedSeedSplitsDecrypters | main.py:49-54 | `"0x"` + 62 zeros passes `main.py`'s check but fails `decrypt_seed.py`'s with InvalidHex |
| Comparison.PaddedSeedSplitsDecrypters | main.py:49 | a hex seed with a trailing newline passes `main.py` stripped but fails `decrypt_seed.py` on its length |
| Comparison.ReaderAcceptsNonHex | main.py:59-69 | the file reader accepts 64 `g`s, which `generate_totp_code` then rejects for every clock and HOTP |
| Comparison.SameCodeEverywhere | totp_utils.py:14-17 | for 64 hex digits, `totp.py`, `totp_utils.py` and the cron script produce the same code |
| Comparison.TotpToleratesPadding | totp.py:9 | `totp.py` gives a padded seed the code of the bare seed, which `totp_utils.py` rejects once padded |
| Comparison.CronExtendsTotpUtils | scripts/log_2fa_cron.py:16-26 | the cron generator agrees with `totp_utils.py` wherever the latter succeeds, and also accepts the empty seed that `totp_utils.py` rejects |
| Comparison.ServiceRoundTrip | main.py:124-164 | for a 64-digit seed after the first step, the code `generate_totp_code` gives verifies with `verify_totp_code(…, 1)` at the same instant: the calls at main.py:124 and main.py:164 |

## Left out

- RSA-OAEP/SHA-256 decryption, PEM key loading and Base64 decoding are one partial function parameter `decrypt`, and UTF-8 decoding (`decrypt_seed.py`) is a parameter `utf8`. The cryptography library is not part of this model.
- HMAC-SHA1 is not computed. The pipeline takes HOTP as a parameter; `Otp.HotpCode` / `Otp.Rfc4226` give its RFC 4226 form over an HMAC parameter.
- pyotp's `strings_equal` applies NFKC normalisation and a constant-time comparison; the model compares the code strings exactly.
- VerifyRejectsNonCode: holds for exact comparison only. Under pyotp's NFKC comparison, a string NFKC-equivalent to the code, such as fullwidth digits, is accepted.
- VerifyFromRejectsNonCode: the same: exact comparison only, not NFKC equivalence.
- pyotp's `timecode` divides a float timestamp; the clock here is whole seconds.
- `str.lower` is modelled on ASCII letters only (`Text.Lower`); non-ASCII characters are left unchanged. No character lowers into a hex digit unless it is one, so every accepted seed and every code agree with Python. Two characters differ, though: U+0130 lowers to `i` followed by U+0307, which lengthens the text, and U+212A (Kelvin sign) lowers to the ASCII `k`.
- Totp.HexSeedToBase32: for a seed containing U+0130 or U+212A, the error kind or position can differ from totp.py's. `"İ"` followed by 63 zeros raises the 65-character length error in totp.py, but the model gives `NonHexadecimal(0)`. `"İ"` followed by 62 zeros fails in `fromhex` at position 1 in totp.py, but the model gives `SeedLength(63)`. The same error then reaches `Totp.GenerateTotpCode` and `Totp.VerifyTotpCode`.
- Hex.FirstNonAsciiLower: holds for ASCII lower-casing only. Python's `s.lower()` moves the first non-ASCII character of `"İ"` to index 1, and turns U+212A into ASCII.
- Hex.FromHexLower: "errors included" holds for ASCII lower-casing only. With U+212A, `bytes.fromhex("gK".lower())` fails at 0 but `bytes.fromhex("gK")` fails at 1.
- `int(_, 16)` is modelled on ASCII text, which is all `main.decrypt_seed` hands it. Its handling of non-ASCII digits and whitespace is not modelled.
- `/generate-2fa` reads the clock twice (in pyotp and for `valid_for`); the model uses one reading `now` for both.
- FastAPI, pydantic and JSON encoding are not modelled: a response is a status and a body datatype, and a missing `code` field is `None`.
- Concurrency is not modelled. FastAPI runs these handlers in a thread pool, and `open(SEED_FILE_PATH, "w")` empties the seed file before writing it (main.py:90-94). A `/generate-2fa` or `/verify-2fa` running at the same time can then read an empty file and answer 500 "Invalid seed". `Service.SeedService.DecryptSeedEndpoint` replaces the file contents in one step.
- File system failures are not modelled: `os.makedirs`, write errors, read decode errors and newline translation in text mode. The seed file is the field `SeedService.seedFile`.
- The timestamp of the cron log line (`datetime.now().strftime`) is a string argument, and the printing of the line is left out.
- `request_seed.py` (an HTTP client for the seed-issuing HTTP API) is not part of this model.
- These print-only drivers are left out: `totp.py`'s `main`, `decrypt_seed.py`'s `__main__` block and `test_totp.py` (the latter's computation is `TotpUtils.ZeroSeed`).
- The `bytes.fromhex` error positions and the `fromhex` message text are those of CPython 3.11 (`Objects/bytesobject.c`): a missing final digit is reported as a non-hexadecimal number at position |s|. Some later CPython releases word that one case as "fromhex() arg must contain an even number of hexadecimal digits"; the model does not produce that text.
- `LogCron.Message`: the text of a `SeedLength` error is never produced by the cron script and is given only as a placeholder.
