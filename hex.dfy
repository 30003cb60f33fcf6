/** Python's bytes.fromhex on a str, as CPython 3.11 implements it: ASCII
    whitespace before a byte pair is skipped, every other character must
    belong to a pair of hex digits. */
module Hex {
  import opened Wrappers
  import opened Text

  type Byte = b: int | 0 <= b < 256

  /** The index of the first character outside ASCII, |s| when there is none. */
  function FirstNonAscii(s: string): (k: nat)
    ensures k <= |s|
    ensures forall i :: 0 <= i < k ==> s[i] as int < 128
    ensures k < |s| ==> s[k] as int >= 128
  {
    if s == [] || s[0] as int >= 128 then 0 else 1 + FirstNonAscii(s[1..])
  }

  /** bytes.fromhex(s). A str holding a non-ASCII character fails at the first
      such character before any pair is read; an ASCII str is read pair by
      pair, and a failure carries the index of the offending character (|s|
      when the last pair is missing its second digit). */
  function FromHex(s: string): (r: Result<seq<Byte>, nat>)
    ensures FirstNonAscii(s) < |s| ==> r == Failure(FirstNonAscii(s))
    ensures r.Failure? ==> r.error <= |s|
    ensures r.Success? ==> forall i :: 0 <= i < |s| ==> IsHexDigit(s[i]) || IsAsciiWhitespace(s[i])
  {
    var k := FirstNonAscii(s);
    if k < |s| then Failure(k)
    else
      FromHexAtAccepts(s, 0);
      FromHexAt(s, 0)
  }

  /** Only hex digits and ASCII whitespace can be read. */
  lemma {:induction false} FromHexAtAccepts(s: string, i: nat)
    ensures FromHexAt(s, i).Success? ==>
      forall j :: i <= j < |s| ==> IsHexDigit(s[j]) || IsAsciiWhitespace(s[j])
    decreases |s| - i
  {
    if i < |s| {
      if IsAsciiWhitespace(s[i]) {
        FromHexAtAccepts(s, i + 1);
      } else if IsHexDigit(s[i]) && i + 1 < |s| && IsHexDigit(s[i + 1]) {
        FromHexAtAccepts(s, i + 2);
      }
    }
  }

  /** A string of ASCII characters is read pair by pair from the start. */
  lemma AsciiFromHex(s: string)
    requires forall i :: 0 <= i < |s| ==> s[i] as int < 128
    ensures FromHex(s) == FromHexAt(s, 0)
  {
    var k := FirstNonAscii(s);
    if k < |s| {
      assert false;
    }
  }

  function FromHexAt(s: string, i: nat): (r: Result<seq<Byte>, nat>)
    ensures r.Failure? ==> i <= r.error <= |s|
    decreases |s| - i
  {
    if i >= |s| then Success([])
    else if IsAsciiWhitespace(s[i]) then FromHexAt(s, i + 1)
    else if !IsHexDigit(s[i]) then Failure(i)
    else if i + 1 >= |s| || !IsHexDigit(s[i + 1]) then Failure(i + 1)
    else
      match FromHexAt(s, i + 2)
      case Success(rest) => Success([16 * HexValue(s[i]) + HexValue(s[i + 1])] + rest)
      case Failure(p) => Failure(p)
  }

  /** A string of an even number of hex digits decodes to half as many bytes,
      each the value of its two digits, high digit first. */
  lemma {:induction false} FromHexAtDigits(s: string, i: nat)
    requires AllHexDigits(s) && |s| % 2 == 0 && i <= |s| && i % 2 == 0
    ensures FromHexAt(s, i).Success?
    ensures var bs := FromHexAt(s, i).value;
      |bs| == (|s| - i) / 2 &&
      forall j :: 0 <= j < |bs| ==> bs[j] == 16 * HexValue(s[i + 2 * j]) + HexValue(s[i + 2 * j + 1])
    decreases |s| - i
  {
    if i < |s| {
      assert IsHexDigit(s[i]) && IsHexDigit(s[i + 1]);
      assert !IsAsciiWhitespace(s[i]);
      FromHexAtDigits(s, i + 2);
    }
  }

  lemma FromHexDigits(s: string)
    requires AllHexDigits(s) && |s| % 2 == 0
    ensures FromHex(s).Success?
    ensures var bs := FromHex(s).value;
      |bs| == |s| / 2 &&
      forall j :: 0 <= j < |bs| ==> bs[j] == 16 * HexValue(s[2 * j]) + HexValue(s[2 * j + 1])
  {
    AsciiFromHex(s);
    FromHexAtDigits(s, 0);
  }

  /** A character that is neither a hex digit nor ASCII whitespace makes
      bytes.fromhex fail, wherever it stands. */
  lemma {:induction false} FromHexAtRejects(s: string, i: nat, k: nat)
    requires i <= k < |s| && !IsHexDigit(s[k]) && !IsAsciiWhitespace(s[k])
    ensures FromHexAt(s, i).Failure?
    decreases |s| - i
  {
    if i < k {
      if IsAsciiWhitespace(s[i]) {
        FromHexAtRejects(s, i + 1, k);
      } else if IsHexDigit(s[i]) && i + 1 < |s| && IsHexDigit(s[i + 1]) {
        assert i + 1 != k;
        FromHexAtRejects(s, i + 2, k);
      }
    }
  }

  lemma FromHexRejects(s: string, k: nat)
    requires k < |s| && !IsHexDigit(s[k]) && !IsAsciiWhitespace(s[k])
    ensures FromHex(s).Failure?
  {
    FromHexAtRejects(s, 0, k);
  }

  /** Lower-casing keeps every character inside or outside ASCII. */
  lemma FirstNonAsciiLower(s: string)
    ensures FirstNonAscii(Lower(s)) == FirstNonAscii(s)
  {
    var a, b := FirstNonAscii(Lower(s)), FirstNonAscii(s);
    if a < b {
      LowerAsciiAt(s, a);
      assert false;
    } else if b < a {
      LowerAsciiAt(s, b);
      assert false;
    }
  }

  lemma LowerAsciiAt(s: string, i: nat)
    ensures i < |s| ==> (Lower(s)[i] as int < 128 <==> s[i] as int < 128)
  {
  }

  /** Upper- and lower-case hex digits give the same bytes, and the same failures. */
  lemma {:induction false} FromHexAtLower(s: string, i: nat)
    requires i <= |s|
    ensures FromHexAt(Lower(s), i) == FromHexAt(s, i)
    decreases |s| - i
  {
    if i < |s| {
      LowerCharWhitespace(s[i]);
      assert Lower(s)[i] == LowerChar(s[i]);
      if i + 1 < |s| {
        LowerCharWhitespace(s[i + 1]);
        assert Lower(s)[i + 1] == LowerChar(s[i + 1]);
      }
      if IsAsciiWhitespace(s[i]) {
        FromHexAtLower(s, i + 1);
      } else if IsHexDigit(s[i]) && i + 1 < |s| && IsHexDigit(s[i + 1]) {
        FromHexAtLower(s, i + 2);
      }
    }
  }

  lemma FromHexLower(s: string)
    ensures FromHex(Lower(s)) == FromHex(s)
  {
    FirstNonAsciiLower(s);
    FromHexAtLower(s, 0);
  }

  /** Two blanks inside 64 characters are skipped: "00", two blanks and sixty
      zeros decode to 31 zero bytes. */
  lemma FromHexSkipsBlanks(z: string)
    requires |z| == 60 && forall i :: 0 <= i < |z| ==> z[i] == '0'
    ensures |"00  " + z| == 64 && FromHex("00  " + z).Success?
    ensures var key := FromHex("00  " + z).value;
      |key| == 31 && forall j :: 0 <= j < 31 ==> key[j] == 0
  {
    var s := "00  " + z;
    assert s[4..] == z;
    assert forall i :: 0 <= i < |s| ==> s[i] as int < 128;
    AsciiFromHex(s);
    FromHexDigits(z);
    var bs := FromHex(z).value;
    FromHexAtShift(s, z, 4, 0);
    assert IsAsciiWhitespace(s[2]) && IsAsciiWhitespace(s[3]);
    assert FromHexAt(s, 2) == FromHexAt(s, 3) == FromHexAt(s, 4);
    assert IsHexDigit(s[0]) && IsHexDigit(s[1]) && !IsAsciiWhitespace(s[0]);
    assert FromHexAt(s, 0) == Success([0] + bs);
  }

  lemma {:induction false} FromHexAtShift(s: string, z: string, k: nat, i: nat)
    requires |s| == |z| + k && s[k..] == z && i <= |z|
    ensures FromHexAt(z, i).Success? ==> FromHexAt(s, i + k) == FromHexAt(z, i)
    decreases |z| - i
  {
    if i < |z| {
      assert s[i + k] == z[i];
      if i + 1 < |z| { assert s[i + k + 1] == z[i + 1]; }
      if IsAsciiWhitespace(z[i]) {
        FromHexAtShift(s, z, k, i + 1);
      } else if IsHexDigit(z[i]) && i + 1 < |z| && IsHexDigit(z[i + 1]) {
        FromHexAtShift(s, z, k, i + 2);
      }
    }
  }
}
