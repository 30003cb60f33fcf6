/** The Python string built-ins the seed handling relies on: str.isspace,
    str.strip, str.lower (on ASCII letters) and hexadecimal digits. */
module Text {

  /** Python's str.isspace() for a single character. */
  predicate IsWhitespace(c: char)
    ensures IsWhitespace(c) ==> !IsHexDigit(c) && !('A' <= c <= 'Z') && !('a' <= c <= 'z')
  {
    var n := c as int;
    (9 <= n <= 13) || (0x1C <= n <= 0x20) || n == 0x85 || n == 0xA0 || n == 0x1680 ||
    (0x2000 <= n <= 0x200A) || n == 0x2028 || n == 0x2029 || n == 0x202F || n == 0x205F || n == 0x3000
  }

  /** The ASCII whitespace that bytes.fromhex skips (Py_ISSPACE). */
  predicate IsAsciiWhitespace(c: char)
    ensures IsAsciiWhitespace(c) ==> IsWhitespace(c) && (c as int) < 128
  {
    c == ' ' || (9 <= c as int <= 13)
  }

  predicate AllWhitespace(s: string)
  {
    forall i :: 0 <= i < |s| ==> IsWhitespace(s[i])
  }

  predicate IsHexDigit(c: char)
  {
    ('0' <= c <= '9') || ('a' <= c <= 'f') || ('A' <= c <= 'F')
  }

  predicate AllHexDigits(s: string)
  {
    forall i :: 0 <= i < |s| ==> IsHexDigit(s[i])
  }

  /** Membership in the literal "0123456789abcdef" of decrypt_seed.py. */
  predicate IsLowerHexDigit(c: char)
  {
    ('0' <= c <= '9') || ('a' <= c <= 'f')
  }

  function HexValue(c: char): (v: nat)
    requires IsHexDigit(c)
    ensures v < 16
    ensures ('0' <= c <= '9') <==> v < 10
  {
    if '0' <= c <= '9' then c as int - '0' as int
    else if 'a' <= c <= 'f' then c as int - 'a' as int + 10
    else c as int - 'A' as int + 10
  }

  /** Lower-casing of one character; only ASCII letters are changed. */
  function LowerChar(c: char): char
  {
    if 'A' <= c <= 'Z' then (c as int + 32) as char else c
  }

  function Lower(s: string): (r: string)
    ensures |r| == |s|
    ensures forall i :: 0 <= i < |r| ==> !('A' <= r[i] <= 'Z')
    ensures forall i :: 0 <= i < |s| ==> r[i] == s[i] || ('A' <= s[i] <= 'Z' && r[i] as int == s[i] as int + 32)
  {
    seq(|s|, i requires 0 <= i < |s| => LowerChar(s[i]))
  }

  /** str.lstrip(): drops the leading whitespace. */
  function TrimStart(s: string): (r: string)
    ensures |r| <= |s| && r == s[|s| - |r|..]
    ensures r != [] ==> !IsWhitespace(r[0])
    ensures forall i :: 0 <= i < |s| - |r| ==> IsWhitespace(s[i])
  {
    if s != [] && IsWhitespace(s[0]) then TrimStart(s[1..]) else s
  }

  /** str.rstrip(): drops the trailing whitespace. */
  function TrimEnd(s: string): (r: string)
    ensures |r| <= |s| && r == s[..|r|]
    ensures r != [] ==> !IsWhitespace(r[|r| - 1])
    ensures forall i :: |r| <= i < |s| ==> IsWhitespace(s[i])
  {
    if s != [] && IsWhitespace(s[|s| - 1]) then TrimEnd(s[..|s| - 1]) else s
  }

  /** str.strip() with no argument. */
  function Strip(s: string): (r: string)
    ensures |r| <= |s|
    ensures r != [] ==> !IsWhitespace(r[0]) && !IsWhitespace(r[|r| - 1])
  {
    TrimEnd(TrimStart(s))
  }

  predicate IsStripped(s: string)
  {
    s == [] || (!IsWhitespace(s[0]) && !IsWhitespace(s[|s| - 1]))
  }

  // ---------- lemmas ----------

  lemma {:induction false} TrimStartPrefix(a: string, t: string)
    requires AllWhitespace(a)
    ensures TrimStart(a + t) == TrimStart(t)
  {
    if a == [] {
      assert a + t == t;
    } else {
      assert (a + t)[0] == a[0] && IsWhitespace(a[0]);
      assert (a + t)[1..] == a[1..] + t;
      TrimStartPrefix(a[1..], t);
    }
  }

  lemma {:induction false} TrimEndSuffix(t: string, b: string)
    requires AllWhitespace(b)
    ensures TrimEnd(t + b) == TrimEnd(t)
  {
    if b == [] {
      assert t + b == t;
    } else {
      var b' := b[..|b| - 1];
      assert (t + b)[|t + b| - 1] == b[|b| - 1] && IsWhitespace(b[|b| - 1]);
      assert (t + b)[..|t + b| - 1] == t + b';
      TrimEndSuffix(t, b');
    }
  }

  /** Strip removes exactly a whitespace border: whatever lies between
      two whitespace runs and starts and ends with a non-blank is the result. */
  lemma StripUnique(a: string, m: string, b: string)
    requires AllWhitespace(a) && AllWhitespace(b) && IsStripped(m)
    ensures Strip(a + m + b) == m
  {
    assert a + m + b == a + (m + b);
    TrimStartPrefix(a, m + b);
    if m == [] {
      assert m + b == b;
      TrimStartPrefix(b, []);
      assert b + [] == b;
    } else {
      assert (m + b)[0] == m[0];
    }
    TrimEndSuffix(m, b);
  }

  /** Python's strip is idempotent. */
  lemma StripIdempotent(s: string)
    ensures Strip(Strip(s)) == Strip(s)
  {
    var r := Strip(s);
    assert IsStripped(r);
    assert [] + r + [] == r;
    StripUnique([], r, []);
  }

  lemma WhitespaceConcat(x: string, y: string)
    requires AllWhitespace(x) && AllWhitespace(y)
    ensures AllWhitespace(x + y)
  {
    forall i | 0 <= i < |x + y| ensures IsWhitespace((x + y)[i]) {
      if i < |x| { assert (x + y)[i] == x[i]; } else { assert (x + y)[i] == y[i - |x|]; }
    }
  }

  /** Concatenation regrouped; kept apart, since the solver finds it slowly
      beside other sequence facts. */
  lemma Assoc<T>(x: seq<T>, y: seq<T>, z: seq<T>)
    ensures x + y + z == x + (y + z)
  {
  }

  /** What TrimStart drops is a whitespace prefix. */
  lemma TrimStartSplit(s: string) returns (w: string)
    ensures s == w + TrimStart(s) && AllWhitespace(w)
  {
    w := s[..|s| - |TrimStart(s)|];
    assert forall i :: 0 <= i < |w| ==> w[i] == s[i];
    assert s == w + s[|w|..];
  }

  /** Text after a non-blank is kept by TrimStart. */
  lemma TrimStartAppend(s: string, b: string)
    requires TrimStart(s) != []
    ensures TrimStart(s + b) == TrimStart(s) + b
  {
    var u := TrimStart(s);
    var w := TrimStartSplit(s);
    Assoc(w, u, b);
    TrimStartPrefix(w, u + b);
    assert (u + b)[0] == u[0];
  }

  /** A blank string followed by blanks trims to nothing. */
  lemma TrimStartBlank(s: string, b: string)
    requires TrimStart(s) == [] && AllWhitespace(b)
    ensures TrimStart(s + b) == []
  {
    WhitespaceConcat(s, b);
    assert (s + b) + [] == s + b;
    TrimStartPrefix(s + b, []);
  }

  /** Surrounding whitespace does not change the stripped value. */
  lemma StripPadded(a: string, s: string, b: string)
    requires AllWhitespace(a) && AllWhitespace(b)
    ensures Strip(a + s + b) == Strip(s)
  {
    Assoc(a, s, b);
    TrimStartPrefix(a, s + b);
    if TrimStart(s) == [] {
      TrimStartBlank(s, b);
    } else {
      TrimStartAppend(s, b);
      TrimEndSuffix(TrimStart(s), b);
    }
  }

  lemma LowerCharWhitespace(c: char)
    ensures IsWhitespace(LowerChar(c)) == IsWhitespace(c)
    ensures IsAsciiWhitespace(LowerChar(c)) == IsAsciiWhitespace(c)
    ensures IsHexDigit(LowerChar(c)) == IsHexDigit(c)
    ensures IsHexDigit(c) ==> HexValue(LowerChar(c)) == HexValue(c)
    ensures LowerChar(LowerChar(c)) == LowerChar(c)
  {
  }

  /** Lower-casing a stripped string leaves it stripped. */
  lemma LowerKeepsStripped(s: string)
    requires IsStripped(s)
    ensures IsStripped(Lower(s))
  {
    if s != [] {
      LowerCharWhitespace(s[0]);
      LowerCharWhitespace(s[|s| - 1]);
      assert Lower(s)[0] == LowerChar(s[0]);
      assert Lower(s)[|s| - 1] == LowerChar(s[|s| - 1]);
    }
  }

  /** Lower-casing and stripping commute, because no ASCII letter is whitespace. */
  lemma {:induction false} LowerTrimStart(s: string)
    ensures Lower(TrimStart(s)) == TrimStart(Lower(s))
  {
    if s != [] {
      LowerCharWhitespace(s[0]);
      assert Lower(s)[0] == LowerChar(s[0]);
      assert Lower(s)[1..] == Lower(s[1..]);
      if IsWhitespace(s[0]) {
        LowerTrimStart(s[1..]);
      }
    }
  }

  lemma {:induction false} LowerTrimEnd(s: string)
    ensures Lower(TrimEnd(s)) == TrimEnd(Lower(s))
  {
    if s != [] {
      LowerCharWhitespace(s[|s| - 1]);
      assert Lower(s)[|s| - 1] == LowerChar(s[|s| - 1]);
      assert Lower(s)[..|s| - 1] == Lower(s[..|s| - 1]);
      if IsWhitespace(s[|s| - 1]) {
        LowerTrimEnd(s[..|s| - 1]);
      }
    }
  }

  lemma LowerStrip(s: string)
    ensures Lower(Strip(s)) == Strip(Lower(s))
  {
    LowerTrimEnd(TrimStart(s));
    LowerTrimStart(s);
  }

  lemma LowerIdempotent(s: string)
    ensures Lower(Lower(s)) == Lower(s)
  {
    forall i | 0 <= i < |s| ensures Lower(Lower(s))[i] == Lower(s)[i] {
      LowerCharWhitespace(s[i]);
    }
  }

  /** A string that starts and ends with a non-blank is its own strip. */
  lemma StripBetweenNonBlanks(s: string)
    requires |s| > 0 && !IsWhitespace(s[0]) && !IsWhitespace(s[|s| - 1])
    ensures Strip(s) == s
  {
    assert [] + s + [] == s;
    StripUnique([], s, []);
  }

  /** A string without upper-case ASCII letters is its own lower-casing. */
  lemma LowerUnchanged(s: string)
    requires forall i :: 0 <= i < |s| ==> !('A' <= s[i] <= 'Z')
    ensures Lower(s) == s
  {
  }

  /** A string of hex digits has no whitespace to strip. */
  lemma StripHexDigits(s: string)
    requires AllHexDigits(s)
    ensures Strip(s) == s
  {
    if s != [] {
      assert IsHexDigit(s[0]) && IsHexDigit(s[|s| - 1]);
    }
    assert [] + s + [] == s;
    StripUnique([], s, []);
  }

  function Repeat(c: char, n: nat): (r: string)
    ensures |r| == n && forall i :: 0 <= i < n ==> r[i] == c
  {
    if n == 0 then [] else [c] + Repeat(c, n - 1)
  }
}
