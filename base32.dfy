/** The Base32 encoding of section 6 of RFC 4648 (Python's base64.b32encode)
    and its decoding as base64.b32decode(s, casefold=True) performs it.
    Both are stated bit by bit: the input bytes form a bit string, most
    significant bit first, that is cut into 5-bit groups. */
module Base32 {
  import opened Wrappers
  import opened Text
  import opened Hex

  type Bit = b: int | 0 <= b < 2

  function Pow2(k: nat): (p: nat)
    ensures p >= 1
  {
    if k == 0 then 1 else 2 * Pow2(k - 1)
  }

  /** The k low bits of v, most significant first. */
  function ToBits(v: nat, k: nat): (r: seq<Bit>)
    ensures |r| == k
  {
    if k == 0 then [] else ToBits(v / 2, k - 1) + [v % 2]
  }

  /** The number a bit string denotes, most significant bit first. */
  function FromBits(bs: seq<Bit>): nat
  {
    if bs == [] then 0 else 2 * FromBits(bs[..|bs| - 1]) + bs[|bs| - 1]
  }

  lemma {:induction false} FromBitsBound(bs: seq<Bit>)
    ensures FromBits(bs) < Pow2(|bs|)
  {
    if bs != [] {
      FromBitsBound(bs[..|bs| - 1]);
    }
  }

  /** Eight bits make a byte, five bits a Base32 symbol value. */
  lemma FromBitsSmall(bs: seq<Bit>)
    ensures |bs| == 8 ==> FromBits(bs) < 256
    ensures |bs| == 5 ==> FromBits(bs) < 32
  {
    FromBitsBound(bs);
    assert Pow2(5) == 32;
    assert Pow2(8) == 256;
  }

  lemma {:induction false} FromToBits(v: nat, k: nat)
    requires v < Pow2(k)
    ensures FromBits(ToBits(v, k)) == v
  {
    if k > 0 {
      FromToBits(v / 2, k - 1);
      assert ToBits(v, k)[..k - 1] == ToBits(v / 2, k - 1);
    }
  }

  lemma {:induction false} ToFromBits(bs: seq<Bit>)
    ensures ToBits(FromBits(bs), |bs|) == bs
  {
    if bs != [] {
      var n := |bs|;
      var init, last := bs[..n - 1], bs[n - 1];
      var v := FromBits(bs);
      assert v == 2 * FromBits(init) + last;
      assert v / 2 == FromBits(init) && v % 2 == last;
      ToFromBits(init);
      assert ToBits(v, n) == ToBits(FromBits(init), n - 1) + [last];
      assert init + [last] == bs;
    }
  }

  function Zeros(n: nat): (r: seq<Bit>)
    ensures |r| == n && forall i :: 0 <= i < n ==> r[i] == 0
  {
    if n == 0 then [] else [0] + Zeros(n - 1)
  }

  /** The bits of a byte string, eight per byte. */
  function BitsOf(bs: seq<Byte>): (r: seq<Bit>)
    ensures |r| == 8 * |bs|
  {
    if bs == [] then [] else ToBits(bs[0], 8) + BitsOf(bs[1..])
  }

  /** The bytes of a bit string; a trailing group of fewer than eight bits is dropped. */
  function BytesOf(bits: seq<Bit>): (r: seq<Byte>)
    ensures |r| == |bits| / 8
  {
    if |bits| < 8 then []
    else
      FromBitsSmall(bits[..8]);
      [FromBits(bits[..8])] + BytesOf(bits[8..])
  }

  lemma {:induction false} BytesOfBitsOf(bs: seq<Byte>, z: seq<Bit>)
    requires |z| < 8
    ensures BytesOf(BitsOf(bs) + z) == bs
  {
    if bs != [] {
      var head := ToBits(bs[0], 8);
      var all := BitsOf(bs) + z;
      assert all == head + (BitsOf(bs[1..]) + z);
      assert all[..8] == head;
      assert all[8..] == BitsOf(bs[1..]) + z;
      assert Pow2(8) == 256;
      FromToBits(bs[0], 8);
      FromBitsSmall(head);
      BytesOfBitsOf(bs[1..], z);
    }
  }

  const Alphabet: string := "ABCDEFGHIJKLMNOPQRSTUVWXYZ234567"

  predicate IsSymbol(c: char)
  {
    ('A' <= c <= 'Z') || ('2' <= c <= '7')
  }

  /** The character of a 5-bit value in the alphabet of RFC 4648 section 6. */
  function Symbol(v: nat): (c: char)
    requires v < 32
    ensures IsSymbol(c) && c == Alphabet[v]
  {
    if v < 26 then ('A' as int + v) as char else ('2' as int + v - 26) as char
  }

  /** The value of an alphabet character; casefold=True also admits lower-case letters. */
  function SymbolValue(c: char): (r: Option<nat>)
    ensures r.Some? ==> r.value < 32
    ensures r.Some? <==> IsSymbol(c) || ('a' <= c <= 'z')
    ensures IsSymbol(c) ==> r.Some? && Symbol(r.value) == c
    ensures 'a' <= c <= 'z' ==> r.Some? && Symbol(r.value) == (c as int - 32) as char
  {
    if 'A' <= c <= 'Z' then Some(c as int - 'A' as int)
    else if 'a' <= c <= 'z' then Some(c as int - 'a' as int)
    else if '2' <= c <= '7' then Some(c as int - '2' as int + 26)
    else None
  }

  lemma SymbolInverse(v: nat)
    requires v < 32
    ensures SymbolValue(Symbol(v)) == Some(v)
  {
  }

  /** The symbols of a bit string; the last group is filled up with zero bits. */
  function EncodeBits(bits: seq<Bit>): (r: string)
    ensures |r| == (|bits| + 4) / 5
    ensures forall i :: 0 <= i < |r| ==> IsSymbol(r[i])
  {
    if |bits| == 0 then []
    else if |bits| < 5 then
      FromBitsSmall(bits + Zeros(5 - |bits|));
      [Symbol(FromBits(bits + Zeros(5 - |bits|)))]
    else
      FromBitsSmall(bits[..5]);
      [Symbol(FromBits(bits[..5]))] + EncodeBits(bits[5..])
  }

  /** The bit string of a run of symbols, five bits each. */
  function DecodeSymbols(cs: string): (r: Option<seq<Bit>>)
    ensures r.Some? ==> |r.value| == 5 * |cs|
  {
    if cs == [] then Some([])
    else
      match SymbolValue(cs[0])
      case None => None
      case Some(v) =>
        match DecodeSymbols(cs[1..])
        case None => None
        case Some(rest) => Some(ToBits(v, 5) + rest)
  }

  /** The number of '=' characters that pads c symbols to a multiple of eight. */
  function PadCount(c: nat): nat
  {
    (8 - c % 8) % 8
  }

  /** base64.b32encode: ceil(8n/5) alphabet symbols for n bytes, then '='
      characters up to a length of 8 * ceil(n/5). */
  function Encode(bs: seq<Byte>): (e: string)
    ensures |e| == 8 * ((|bs| + 4) / 5)
    ensures forall i :: 0 <= i < (8 * |bs| + 4) / 5 ==> IsSymbol(e[i])
    ensures forall i :: (8 * |bs| + 4) / 5 <= i < |e| ==> e[i] == '='
  {
    var cs := EncodeBits(BitsOf(bs));
    SymbolCount(|bs|);
    var e := cs + Repeat('=', PadCount(|cs|));
    assert forall i :: |cs| <= i < |e| ==> e[i] == Repeat('=', PadCount(|cs|))[i - |cs|];
    e
  }

  /** The string without its trailing '=' characters (bytes.rstrip(b'=')). */
  function TrimPadding(s: string): (r: string)
    ensures |r| <= |s| && r == s[..|r|]
    ensures forall i :: |r| <= i < |s| ==> s[i] == '='
    ensures r != [] ==> r[|r| - 1] != '='
  {
    if s != [] && s[|s| - 1] == '=' then TrimPadding(s[..|s| - 1]) else s
  }

  /** base64.b32decode(s, casefold=True); None stands for binascii.Error. */
  function Decode(s: string): (r: Option<seq<Byte>>)
    ensures |s| % 8 != 0 ==> r.None?
    ensures |s| - |TrimPadding(s)| !in {0, 1, 3, 4, 6} ==> r.None?
    ensures r.Some? ==> |r.value| == 5 * |TrimPadding(s)| / 8
  {
    var body := TrimPadding(s);
    var padding := |s| - |body|;
    if |s| % 8 != 0 || padding !in {0, 1, 3, 4, 6} then None
    else
      match DecodeSymbols(body)
      case None => None
      case Some(bits) => Some(BytesOf(bits))
  }

  // ---------- lemmas ----------

  lemma DecodeSymbolsCons(v: nat, rest: string, tail: seq<Bit>)
    requires v < 32 && DecodeSymbols(rest) == Some(tail)
    ensures DecodeSymbols([Symbol(v)] + rest) == Some(ToBits(v, 5) + tail)
  {
    var cs := [Symbol(v)] + rest;
    SymbolInverse(v);
    assert cs[0] == Symbol(v) && cs[1..] == rest;
  }

  /** A last group of fewer than five bits becomes one symbol. */
  lemma EncodeLastGroup(bits: seq<Bit>)
    requires 0 < |bits| < 5
    ensures FromBits(bits + Zeros(5 - |bits|)) < 32
    ensures EncodeBits(bits) == [Symbol(FromBits(bits + Zeros(5 - |bits|)))]
  {
    FromBitsSmall(bits + Zeros(5 - |bits|));
  }

  lemma DecodeEncodeLastGroup(bits: seq<Bit>)
    requires 0 < |bits| < 5
    ensures DecodeSymbols(EncodeBits(bits)) == Some(bits + Zeros(5 - |bits|))
  {
    var full := bits + Zeros(5 - |bits|);
    EncodeLastGroup(bits);
    var v := FromBits(full);
    ToFromBits(full);
    DecodeSymbolsCons(v, [], []);
    assert [Symbol(v)] + [] == [Symbol(v)];
    assert ToBits(v, 5) + [] == full;
  }

  /** The number of zero bits that fill n bits up to a multiple of five. */
  function FillTo5(n: nat): (f: nat)
    ensures f < 5 && (n + f) % 5 == 0
  {
    var m := n % 5;
    assert n == 5 * (n / 5) + m;
    if m == 0 then 0 else (assert n + (5 - m) == 5 * (n / 5 + 1); 5 - m)
  }

  lemma FillTo5Shift(n: nat)
    requires n >= 5
    ensures FillTo5(n - 5) == FillTo5(n)
  {
  }

  lemma {:induction false} DecodeEncodeBits(bits: seq<Bit>)
    ensures DecodeSymbols(EncodeBits(bits)) == Some(bits + Zeros(FillTo5(|bits|)))
  {
    if |bits| == 0 {
      assert FillTo5(0) == 0;
      assert bits + Zeros(0) == bits;
    } else if |bits| < 5 {
      assert FillTo5(|bits|) == 5 - |bits|;
      DecodeEncodeLastGroup(bits);
    } else {
      var head, tail := bits[..5], bits[5..];
      FillTo5Shift(|bits|);
      DecodeEncodeBits(tail);
      assert head + tail == bits;
      DecodeEncodeGroup(head, tail, Zeros(FillTo5(|bits|)));
    }
  }

  /** One step of DecodeEncodeBits: a group of five bits in front of a tail
      for which the round trip holds. */
  lemma DecodeEncodeGroup(head: seq<Bit>, tail: seq<Bit>, z: seq<Bit>)
    requires |head| == 5 && DecodeSymbols(EncodeBits(tail)) == Some(tail + z)
    ensures DecodeSymbols(EncodeBits(head + tail)) == Some(head + tail + z)
  {
    EncodeBitsCons(head, tail);
    DecodeGroupCons(head, EncodeBits(tail), tail + z);
    Assoc(head, tail, z);
  }

  /** The first symbol of an encoding is that of its first five bits. */
  lemma EncodeBitsCons(head: seq<Bit>, tail: seq<Bit>)
    requires |head| == 5
    ensures FromBits(head) < 32
    ensures EncodeBits(head + tail) == [Symbol(FromBits(head))] + EncodeBits(tail)
  {
    var bits := head + tail;
    FromBitsSmall(head);
    assert bits[..5] == head && bits[5..] == tail;
  }

  /** Decoding a symbol in front of a decodable rest yields its five bits first. */
  lemma DecodeGroupCons(head: seq<Bit>, rest: string, tail: seq<Bit>)
    requires |head| == 5 && DecodeSymbols(rest) == Some(tail)
    ensures FromBits(head) < 32
    ensures DecodeSymbols([Symbol(FromBits(head))] + rest) == Some(head + tail)
  {
    FromBitsSmall(head);
    ToFromBits(head);
    DecodeSymbolsCons(FromBits(head), rest, tail);
  }

  lemma {:induction false} TrimPaddingOf(cs: string, p: nat)
    requires forall i :: 0 <= i < |cs| ==> IsSymbol(cs[i])
    ensures TrimPadding(cs + Repeat('=', p)) == cs
  {
    if p == 0 {
      assert cs + Repeat('=', 0) == cs;
      if cs != [] { assert IsSymbol(cs[|cs| - 1]); }
    } else {
      var s := cs + Repeat('=', p);
      assert s[|s| - 1] == '=';
      assert s[..|s| - 1] == cs + Repeat('=', p - 1);
      TrimPaddingOf(cs, p - 1);
    }
  }

  /** The symbol count for n bytes, and the padding it needs, by the remainder n % 5. */
  lemma SymbolCount(n: nat)
    ensures var c := (8 * n + 4) / 5;
      PadCount(c) in {0, 1, 3, 4, 6} &&
      c + PadCount(c) == 8 * ((n + 4) / 5)
  {
    var q, r := n / 5, n % 5;
    assert n == 5 * q + r;
    if r == 0 {
      assert (8 * n + 4) / 5 == 8 * q;
    } else if r == 1 {
      assert (8 * n + 4) / 5 == 8 * q + 2;
    } else if r == 2 {
      assert (8 * n + 4) / 5 == 8 * q + 4;
    } else if r == 3 {
      assert (8 * n + 4) / 5 == 8 * q + 5;
    } else {
      assert (8 * n + 4) / 5 == 8 * q + 7;
    }
  }

  /** Kept apart so that the solver sees this fact without the context around it. */
  lemma MultipleOfEight(k: nat)
    ensures (8 * k) % 8 == 0
  {
  }

  /** An encoding is made of whole 8-character groups. */
  lemma EncodeFullGroups(bs: seq<Byte>)
    ensures |Encode(bs)| % 8 == 0
  {
    MultipleOfEight((|bs| + 4) / 5);
  }

  /** Decoding undoes encoding for every byte string. */
  lemma DecodeEncode(bs: seq<Byte>)
    ensures Decode(Encode(bs)) == Some(bs)
  {
    var bits := BitsOf(bs);
    EncodePadding(bs);
    DecodeEncodeBits(bits);
    var z := Zeros(FillTo5(|bits|));
    BytesOfBitsOf(bs, z);
  }

  /** The padding of an encoding is well formed and trims away to the symbols. */
  lemma EncodePadding(bs: seq<Byte>)
    ensures var s := Encode(bs);
      TrimPadding(s) == EncodeBits(BitsOf(bs)) &&
      |s| % 8 == 0 && |s| - |TrimPadding(s)| in {0, 1, 3, 4, 6}
  {
    PaddedSymbols(EncodeBits(BitsOf(bs)), |bs|);
  }

  /** The symbols for n bytes, padded with '=' to a multiple of eight. */
  lemma PaddedSymbols(cs: string, n: nat)
    requires |cs| == (8 * n + 4) / 5 && forall i :: 0 <= i < |cs| ==> IsSymbol(cs[i])
    ensures var s := cs + Repeat('=', PadCount(|cs|));
      TrimPadding(s) == cs && |s| % 8 == 0 && |s| - |cs| in {0, 1, 3, 4, 6}
  {
    SymbolCount(n);
    TrimPaddingOf(cs, PadCount(|cs|));
    MultipleOfEight((n + 4) / 5);
  }

  /** The 32 bytes of a seed encode to 52 symbols and four '=' characters. */
  lemma EncodeSeedBytes(bs: seq<Byte>)
    requires |bs| == 32
    ensures var e := Encode(bs);
      |e| == 56 && (forall i :: 0 <= i < 52 ==> IsSymbol(e[i])) && e[52..] == "===="
  {
  }
}
