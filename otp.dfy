/** The part of pyotp the code relies on: TOTP(secret, digits=6, interval=30)
    with SHA-1, its now() and verify(). The HOTP value of a key and a counter
    is a parameter of the pipeline (Hotp); HotpCode writes it out over an
    HMAC-SHA1 parameter, with the 8-byte counter and the dynamic truncation
    of section 5.3 of RFC 4226. The time step is that of section 4 of RFC 6238. */
module Otp {
  import opened Wrappers
  import opened Text
  import opened Hex
  import opened Errors
  import Base32

  /** An HMAC-SHA1 digest: 20 bytes. */
  type Digest = s: seq<Byte> | |s| == 20 witness seq(20, i => 0)

  /** HMAC-SHA1(key, message); pyotp computes it with hmac.new, not modelled here. */
  type Hmac = (seq<Byte>, seq<Byte>) -> Digest

  const Interval: nat := 30
  const CodeDigits: nat := 6

  /** The time-step counter of a Unix time (RFC 6238 section 4, T0 = 0, X = 30). */
  function TimeCode(t: nat): (r: nat)
    ensures r * Interval <= t < (r + 1) * Interval
  {
    t / Interval
  }

  // ---------- the HMAC message: int_to_bytestring(counter) ----------

  /** The big-endian bytes of c without leading zeros. */
  function MinimalBytes(c: nat): (r: seq<Byte>)
    ensures r == [] <==> c == 0
    ensures r != [] ==> r[0] != 0
  {
    if c == 0 then [] else MinimalBytes(c / 256) + [c % 256]
  }

  /** int_to_bytestring: the big-endian bytes of c, left-padded with zeros to eight. */
  function CounterBytes(c: nat): (r: seq<Byte>)
    ensures |r| >= 8
    ensures |r| == 8 <==> c < Pow256(8)
  {
    var m := MinimalBytes(c);
    MinimalBytesLength(c, 8);
    if |m| >= 8 then m else seq(8 - |m|, i => 0) + m
  }

  function Pow256(k: nat): (p: nat)
    ensures p >= 1
  {
    if k == 0 then 1 else 256 * Pow256(k - 1)
  }

  /** c needs at most k bytes exactly when it is below 256 to the k. */
  lemma {:induction false} MinimalBytesLength(c: nat, k: nat)
    ensures |MinimalBytes(c)| <= k <==> c < Pow256(k)
    decreases c
  {
    if c > 0 && k > 0 {
      MinimalBytesLength(c / 256, k - 1);
      assert c < 256 * Pow256(k - 1) <==> c / 256 < Pow256(k - 1);
    }
  }

  /** The number a big-endian byte string denotes. */
  function BigEndianValue(bs: seq<Byte>): nat
  {
    if bs == [] then 0 else 256 * BigEndianValue(bs[..|bs| - 1]) + bs[|bs| - 1]
  }

  lemma {:induction false} MinimalBytesValue(c: nat)
    ensures BigEndianValue(MinimalBytes(c)) == c
  {
    if c > 0 {
      MinimalBytesValue(c / 256);
      var m := MinimalBytes(c);
      assert m[..|m| - 1] == MinimalBytes(c / 256);
    }
  }

  lemma {:induction false} LeadingZeros(n: nat, m: seq<Byte>)
    ensures BigEndianValue(seq(n, i => 0) + m) == BigEndianValue(m)
    decreases |m|, n
  {
    var z: seq<Byte> := seq(n, i => 0);
    if m == [] {
      assert z + m == z;
      if n > 0 {
        assert z[..n - 1] == seq(n - 1, i => 0) + [];
        LeadingZeros(n - 1, []);
      }
    } else {
      var init := m[..|m| - 1];
      assert (z + m)[..|z + m| - 1] == z + init;
      LeadingZeros(n, init);
    }
  }

  /** Distinct counters give distinct HMAC messages: the message denotes the counter. */
  lemma CounterBytesValue(c: nat)
    ensures BigEndianValue(CounterBytes(c)) == c
  {
    MinimalBytesValue(c);
    var m := MinimalBytes(c);
    if |m| < 8 {
      LeadingZeros(8 - |m|, m);
    }
  }

  // ---------- code derivation ----------

  /** Dynamic truncation (RFC 4226 section 5.3): a 31-bit number from four
      digest bytes at the offset named by the low nibble of the last byte. */
  function Truncate(d: Digest): (p: nat)
    ensures p < 0x8000_0000
  {
    var offset := d[19] % 16;
    (d[offset] as int % 128) * 0x100_0000 + d[offset + 1] as int * 0x1_0000 +
      d[offset + 2] as int * 0x100 + d[offset + 3] as int
  }

  function Pow10(k: nat): (p: nat)
    ensures p >= 1
  {
    if k == 0 then 1 else 10 * Pow10(k - 1)
  }

  predicate IsDecimalDigit(c: char)
  {
    '0' <= c <= '9'
  }

  /** The last `width` decimal digits of v, zero-padded (str(10**10 + v)[-width:] in pyotp). */
  function Decimal(v: nat, width: nat): (r: string)
    ensures |r| == width
    ensures forall i :: 0 <= i < width ==> IsDecimalDigit(r[i])
  {
    if width == 0 then [] else Decimal(v / 10, width - 1) + [('0' as int + v % 10) as char]
  }

  /** int(s) for a string of decimal digits. */
  function DecimalValue(s: string): nat
    requires forall i :: 0 <= i < |s| ==> IsDecimalDigit(s[i])
  {
    if s == [] then 0
    else
      assert IsDecimalDigit(s[|s| - 1]);
      10 * DecimalValue(s[..|s| - 1]) + (s[|s| - 1] as int - '0' as int)
  }

  lemma {:induction false} DecimalRoundTrip(v: nat, width: nat)
    requires v < Pow10(width)
    ensures DecimalValue(Decimal(v, width)) == v
  {
    if width > 0 {
      DecimalRoundTrip(v / 10, width - 1);
      var r := Decimal(v, width);
      assert r[..width - 1] == Decimal(v / 10, width - 1);
    }
  }

  /** A one-time code: exactly six decimal digits. */
  predicate IsCode(s: string)
  {
    |s| == CodeDigits && forall i :: 0 <= i < |s| ==> IsDecimalDigit(s[i])
  }

  /** HOTP(key, counter) with six digits: the truncated HMAC modulo 10^6, zero-padded. */
  function HotpCode(hmac: Hmac, key: seq<Byte>, counter: nat): (code: string)
    ensures IsCode(code)
    ensures DecimalValue(code) == Truncate(hmac(key, CounterBytes(counter))) % 1_000_000
  {
    var v := Truncate(hmac(key, CounterBytes(counter))) % 1_000_000;
    assert Pow10(6) == 1_000_000;
    DecimalRoundTrip(v, CodeDigits);
    Decimal(v, CodeDigits)
  }

  /** A one-time code as pyotp returns it. */
  type Code = s: string | IsCode(s) witness "000000"

  /** HOTP(key, counter) with six digits, as pyotp's generate_otp computes it;
      the pipeline takes it as a parameter. */
  type Hotp = (seq<Byte>, nat) -> Code

  /** The HOTP of RFC 4226 over a given HMAC-SHA1. */
  function Rfc4226(hmac: Hmac): (h: Hotp)
    ensures forall key, counter :: DecimalValue(h(key, counter)) == Truncate(hmac(key, CounterBytes(counter))) % 1_000_000
  {
    (key: seq<Byte>, counter: nat) => HotpCode(hmac, key, counter)
  }

  // ---------- pyotp.TOTP ----------

  /** TOTP.byte_secret(): the secret padded with '=' to a multiple of eight and
      Base32-decoded case-insensitively; None stands for binascii.Error. */
  function KeyBytes(secret: string): (r: Option<seq<Byte>>)
    ensures |secret| % 8 == 0 ==> r == Base32.Decode(secret)
  {
    assert |secret| % 8 == 0 ==> secret + Repeat('=', Base32.PadCount(|secret|)) == secret;
    Base32.Decode(secret + Repeat('=', Base32.PadCount(|secret|)))
  }

  /** pyotp recovers exactly the bytes that were Base32-encoded. */
  lemma KeyBytesOfEncoding(bs: seq<Byte>)
    ensures KeyBytes(Base32.Encode(bs)) == Some(bs)
  {
    var e := Base32.Encode(bs);
    Base32.EncodeFullGroups(bs);
    assert Base32.PadCount(|e|) == 0;
    assert e + Repeat('=', 0) == e;
    Base32.DecodeEncode(bs);
  }

  /** generate_otp(counter) given the outcome of byte_secret(): it raises for a
      negative counter before it looks at the secret. */
  function CodeAt(hotp: Hotp, keyBytes: Option<seq<Byte>>, counter: int): (r: Result<string, Error>)
    ensures counter < 0 ==> r == Failure(NegativeCounter)
    ensures counter >= 0 && keyBytes.None? ==> r == Failure(IncorrectPadding)
    ensures r.Success? <==> counter >= 0 && keyBytes.Some?
    ensures r.Success? ==> IsCode(r.value) && r.value == hotp(keyBytes.value, counter)
  {
    if counter < 0 then Failure(NegativeCounter)
    else
      match keyBytes
      case None => Failure(IncorrectPadding)
      case Some(key) => Success(hotp(key, counter))
  }

  /** TOTP.at(t, offset): the code of counter timecode(t) + offset. */
  function At(hotp: Hotp, secret: string, t: nat, offset: int): (r: Result<string, Error>)
    ensures TimeCode(t) + offset < 0 ==> r == Failure(NegativeCounter)
    ensures TimeCode(t) + offset >= 0 && KeyBytes(secret).None? ==> r == Failure(IncorrectPadding)
    ensures r.Success? <==> TimeCode(t) + offset >= 0 && KeyBytes(secret).Some?
    ensures r.Success? ==> IsCode(r.value) && r.value == hotp(KeyBytes(secret).value, TimeCode(t) + offset)
  {
    CodeAt(hotp, KeyBytes(secret), TimeCode(t) + offset)
  }

  /** TOTP.now() at Unix time t. */
  function Now(hotp: Hotp, secret: string, t: nat): (r: Result<string, Error>)
    ensures KeyBytes(secret).None? ==> r == Failure(IncorrectPadding)
    ensures r.Success? <==> KeyBytes(secret).Some?
    ensures r.Success? ==> IsCode(r.value) && r.value == hotp(KeyBytes(secret).value, TimeCode(t))
  {
    At(hotp, secret, t, 0)
  }

  /** The loop of TOTP.verify over the offsets i..last, earliest first; every
      at() call decodes the same secret, so keyBytes is that one outcome. */
  function VerifyFrom(hotp: Hotp, keyBytes: Option<seq<Byte>>, code: string, t: nat, i: int, last: int): (r: Result<bool, Error>)
    ensures i > last ==> r == Success(false)
    ensures keyBytes.Some? && TimeCode(t) + i >= 0 ==> r.Success?
    ensures i <= last && keyBytes.None? ==> r.Failure?
    decreases if i <= last then last - i + 1 else 0
  {
    if i > last then Success(false)
    else
      match CodeAt(hotp, keyBytes, TimeCode(t) + i)
      case Failure(e) => Failure(e)
      case Success(c) => if c == code then Success(true) else VerifyFrom(hotp, keyBytes, code, t, i + 1, last)
  }

  /** TOTP.verify(code, valid_window=window) at Unix time t. A non-zero window
      tries the offsets range(-window, window + 1), so a negative window tries
      none; a window of zero compares with at(t), which is the same loop over
      the single offset 0. */
  function Verify(hotp: Hotp, secret: string, code: string, t: nat, window: int): (r: Result<bool, Error>)
    ensures window < 0 ==> r == Success(false)
    ensures KeyBytes(secret).Some? && 0 <= window <= TimeCode(t) ==> r.Success?
    ensures window >= 0 && KeyBytes(secret).None? ==> r.Failure?
  {
    VerifyFrom(hotp, KeyBytes(secret), code, t, -window, window)
  }

  // ---------- properties ----------

  /** Some counter in first..last has the given code, looked for from first on. */
  predicate CodeInRange(hotp: Hotp, key: seq<Byte>, code: string, first: int, last: int)
    decreases if first <= last then last - first + 1 else 0
  {
    first <= last &&
    ((first >= 0 && code == hotp(key, first)) || CodeInRange(hotp, key, code, first + 1, last))
  }

  /** CodeInRange holds exactly when a counter in first..last has the code. */
  lemma {:induction false} CodeInRangeMeans(hotp: Hotp, key: seq<Byte>, code: string, first: int, last: int)
    ensures CodeInRange(hotp, key, code, first, last) <==>
            exists c: nat :: first <= c <= last && code == hotp(key, c)
    decreases if first <= last then last - first + 1 else 0
  {
    if first <= last {
      CodeInRangeMeans(hotp, key, code, first + 1, last);
      if !CodeInRange(hotp, key, code, first, last) {
        forall c: nat | first <= c <= last ensures code != hotp(key, c) {
          if c == first {
          } else {
            assert first + 1 <= c;
          }
        }
      }
    }
  }

  /** A counter of the range that has the code puts the code in the range. */
  lemma {:induction false} CodeInRangeHas(hotp: Hotp, key: seq<Byte>, code: string, first: int, last: int, c: nat)
    requires first <= c <= last && code == hotp(key, c)
    ensures CodeInRange(hotp, key, code, first, last)
    decreases c - first
  {
    if first < c {
      CodeInRangeHas(hotp, key, code, first + 1, last, c);
    }
  }

  /** The verify loop over offsets i..last answers whether a counter in
      timecode(t) + i .. timecode(t) + last has the code. */
  lemma {:induction false} VerifyFromMatches(hotp: Hotp, key: seq<Byte>, code: string, t: nat, i: int, last: int)
    requires TimeCode(t) + i >= 0
    ensures VerifyFrom(hotp, Some(key), code, t, i, last) ==
            Success(CodeInRange(hotp, key, code, TimeCode(t) + i, TimeCode(t) + last))
    decreases if i <= last then last - i + 1 else 0
  {
    if i <= last && hotp(key, TimeCode(t) + i) != code {
      VerifyFromMatches(hotp, key, code, t, i + 1, last);
      assert TimeCode(t) + (i + 1) == TimeCode(t) + i + 1;
    }
  }

  /** verify accepts exactly the codes of the counters within the window around
      timecode(t), provided no counter it tries is negative. */
  lemma VerifyWindow(hotp: Hotp, secret: string, key: seq<Byte>, code: string, t: nat, window: int)
    requires KeyBytes(secret) == Some(key)
    requires 0 <= window <= TimeCode(t)
    ensures Verify(hotp, secret, code, t, window) ==
            Success(CodeInRange(hotp, key, code, TimeCode(t) - window, TimeCode(t) + window))
  {
    VerifyFromMatches(hotp, key, code, t, -window, window);
    assert TimeCode(t) + -window == TimeCode(t) - window;
  }

  /** A window of zero behaves as pyotp's own branch for it: compare with now(),
      raising what now() raises. */
  lemma VerifyWindowZero(hotp: Hotp, secret: string, code: string, t: nat)
    ensures Verify(hotp, secret, code, t, 0) ==
            match Now(hotp, secret, t)
            case Failure(e) => Failure(e)
            case Success(c) => Success(c == code)
  {
    assert VerifyFrom(hotp, KeyBytes(secret), code, t, 1, 0) == Success(false);
  }

  /** A negative window tries no offset at all: the answer is False. */
  lemma VerifyNegativeWindow(hotp: Hotp, secret: string, code: string, t: nat, window: int)
    requires window < 0
    ensures Verify(hotp, secret, code, t, window) == Success(false)
  {
  }

  /** A window reaching below counter zero makes verify raise on its first offset. */
  lemma VerifyBeforeEpochWindow(hotp: Hotp, secret: string, code: string, t: nat, window: int)
    requires 0 < window && TimeCode(t) < window
    ensures Verify(hotp, secret, code, t, window) == Failure(NegativeCounter)
  {
  }

  /** A string that is not six decimal digits is never accepted. */
  lemma {:induction false} VerifyFromRejectsNonCode(hotp: Hotp, keyBytes: Option<seq<Byte>>, code: string,
                                                    t: nat, i: int, last: int)
    requires !IsCode(code)
    ensures VerifyFrom(hotp, keyBytes, code, t, i, last) != Success(true)
    decreases if i <= last then last - i + 1 else 0
  {
    if i <= last {
      VerifyFromRejectsNonCode(hotp, keyBytes, code, t, i + 1, last);
    }
  }

  lemma VerifyRejectsNonCode(hotp: Hotp, secret: string, code: string, t: nat, window: int)
    requires !IsCode(code)
    ensures Verify(hotp, secret, code, t, window) != Success(true)
  {
    VerifyFromRejectsNonCode(hotp, KeyBytes(secret), code, t, -window, window);
  }

  /** now() is the HOTP code of the current time step. */
  lemma NowCode(hotp: Hotp, secret: string, key: seq<Byte>, t: nat)
    requires KeyBytes(secret) == Some(key)
    ensures Now(hotp, secret, t) == Success(hotp(key, TimeCode(t)))
  {
  }

  /** The code of any counter within the window is accepted. */
  lemma VerifyAccepts(hotp: Hotp, secret: string, key: seq<Byte>, t: nat, window: int, c: nat)
    requires KeyBytes(secret) == Some(key)
    requires 0 <= window <= TimeCode(t)
    requires TimeCode(t) - window <= c <= TimeCode(t) + window
    ensures Verify(hotp, secret, hotp(key, c), t, window) == Success(true)
  {
    var code := hotp(key, c);
    var lo, hi := TimeCode(t) - window, TimeCode(t) + window;
    VerifyWindow(hotp, secret, key, code, t, window);
    CodeInRangeHas(hotp, key, code, lo, hi, c);
    assert Verify(hotp, secret, code, t, window) == Success(CodeInRange(hotp, key, code, lo, hi));
  }

  /** The code now() returns is accepted by verify at the same time for every window
      that verify can evaluate. */
  lemma VerifyOwnCode(hotp: Hotp, secret: string, t: nat, window: int)
    requires Now(hotp, secret, t).Success?
    requires 0 <= window <= TimeCode(t)
    ensures Verify(hotp, secret, Now(hotp, secret, t).value, t, window) == Success(true)
  {
    var key := KeyBytes(secret).value;
    NowCode(hotp, secret, key, t);
    VerifyAccepts(hotp, secret, key, t, window, TimeCode(t));
  }

  /** The code of the next time step is accepted with a window of one or more. */
  lemma VerifyNextStep(hotp: Hotp, secret: string, t: nat, window: int)
    requires Now(hotp, secret, t + Interval).Success?
    requires 1 <= window <= TimeCode(t)
    ensures Verify(hotp, secret, Now(hotp, secret, t + Interval).value, t, window) == Success(true)
  {
    var key := KeyBytes(secret).value;
    NowCode(hotp, secret, key, t + Interval);
    assert TimeCode(t + Interval) == TimeCode(t) + 1;
    VerifyAccepts(hotp, secret, key, t, window, TimeCode(t) + 1);
  }

  /** Every second of one 30-second step yields the same code. */
  lemma NowWithinStep(hotp: Hotp, secret: string, t1: nat, t2: nat)
    requires TimeCode(t1) == TimeCode(t2)
    ensures Now(hotp, secret, t1) == Now(hotp, secret, t2)
  {
  }
}
