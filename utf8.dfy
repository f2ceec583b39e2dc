/**
 * UTF-8, as Python's `str.encode("utf-8")` produces it and as a strict
 * decoder reads it back. Dafny characters are Unicode scalar values, so every
 * Dafny string is encodable. A Python `str` may also hold a lone surrogate,
 * which `encode` rejects; such strings are outside this model.
 */
module Utf8 {
  import opened Wrappers

  newtype byte = x: int | 0 <= x < 0x100

  predicate IsScalar(n: int)
  {
    0 <= n < 0xD800 || 0xE000 <= n < 0x11_0000
  }

  predicate IsContinuation(b: byte)
  {
    0x80 <= b < 0xC0
  }

  /** The one to four bytes that encode `c`; the first byte alone tells how many there are. */
  function EncodeChar(c: char): (bs: seq<byte>)
    ensures 1 <= |bs| <= 4
    ensures |bs| == 1 <==> bs[0] < 0x80
    ensures forall k | 1 <= k < |bs| :: IsContinuation(bs[k])
  {
    var n := c as int;
    if n < 0x80 then
      [n as byte]
    else if n < 0x800 then
      [(0xC0 + n / 0x40) as byte, (0x80 + n % 0x40) as byte]
    else if n < 0x1_0000 then
      [(0xE0 + n / 0x1000) as byte, (0x80 + n / 0x40 % 0x40) as byte, (0x80 + n % 0x40) as byte]
    else
      [(0xF0 + n / 0x4_0000) as byte, (0x80 + n / 0x1000 % 0x40) as byte,
       (0x80 + n / 0x40 % 0x40) as byte, (0x80 + n % 0x40) as byte]
  }

  function Encode(s: string): (bs: seq<byte>)
    ensures |s| <= |bs| <= 4 * |s|
  {
    if s == [] then [] else EncodeChar(s[0]) + Encode(s[1..])
  }

  /** The smallest code point that needs `len` bytes; smaller ones in that many bytes are overlong. */
  function MinCodePoint(len: nat): int
  {
    if len == 2 then 0x80 else if len == 3 then 0x800 else 0x1_0000
  }

  /** The number of bytes a character takes whose encoding starts with `b0`; 0 for a byte no character starts with. */
  function SequenceLength(b0: byte): nat
  {
    if b0 < 0x80 then 1
    else if 0xC0 <= b0 < 0xE0 then 2
    else if 0xE0 <= b0 < 0xF0 then 3
    else if 0xF0 <= b0 < 0xF8 then 4
    else 0
  }

  /** The code point carried by the first `len` bytes of `bs`, a lead byte and `len - 1` continuation bytes. */
  function CodePoint(bs: seq<byte>, len: nat): int
    requires 2 <= len <= 4 && len <= |bs|
  {
    var payload := bs[0] as int - (if len == 2 then 0xC0 else if len == 3 then 0xE0 else 0xF0);
    if len == 2 then payload * 0x40 + (bs[1] as int - 0x80)
    else if len == 3 then payload * 0x1000 + (bs[1] as int - 0x80) * 0x40 + (bs[2] as int - 0x80)
    else payload * 0x4_0000 + (bs[1] as int - 0x80) * 0x1000 + (bs[2] as int - 0x80) * 0x40 + (bs[3] as int - 0x80)
  }

  /**
   * Decodes one character at the front of `bs`, with the number of bytes it
   * took; `None` for a truncated sequence, a missing continuation byte, an
   * overlong form, a surrogate or a code point beyond U+10FFFF.
   */
  function DecodeChar(bs: seq<byte>): (r: Option<(char, nat)>)
    ensures r.Some? ==> 1 <= r.value.1 <= |bs|
  {
    if bs == [] then None
    else
      var len := SequenceLength(bs[0]);
      if len == 1 then Some((bs[0] as int as char, 1))
      else if len == 0 || |bs| < len then None
      else if exists k | 1 <= k < len :: !IsContinuation(bs[k]) then None
      else
        var n := CodePoint(bs, len);
        if MinCodePoint(len) <= n && IsScalar(n) then Some((n as char, len)) else None
  }

  /** Strict UTF-8 decoding, as `bytes.decode("utf-8")`: `None` where Python would raise. */
  function Decode(bs: seq<byte>): Option<string>
    decreases |bs|
  {
    if bs == [] then Some([])
    else
      match DecodeChar(bs)
      case None => None
      case Some((c, len)) =>
        match Decode(bs[len..])
        case None => None
        case Some(rest) => Some([c] + rest)
  }

  lemma DecodeTwoByteChar(c: char, rest: seq<byte>)
    requires 0x80 <= c as int < 0x800
    ensures DecodeChar(EncodeChar(c) + rest) == Some((c, 2))
  {
    var n := c as int;
    var bs := EncodeChar(c) + rest;
    assert bs[0] as int == 0xC0 + n / 0x40 && bs[1] as int == 0x80 + n % 0x40;
    assert SequenceLength(bs[0]) == 2;
    assert CodePoint(bs, 2) == n;
  }

  lemma DecodeThreeByteChar(c: char, rest: seq<byte>)
    requires 0x800 <= c as int < 0x1_0000
    ensures DecodeChar(EncodeChar(c) + rest) == Some((c, 3))
  {
    var n := c as int;
    var bs := EncodeChar(c) + rest;
    assert bs[0] as int == 0xE0 + n / 0x1000;
    assert bs[1] as int == 0x80 + n / 0x40 % 0x40 && bs[2] as int == 0x80 + n % 0x40;
    assert SequenceLength(bs[0]) == 3;
    assert n / 0x40 == (n / 0x1000) * 0x40 + n / 0x40 % 0x40;
    assert CodePoint(bs, 3) == n;
  }

  lemma DecodeFourByteChar(c: char, rest: seq<byte>)
    requires 0x1_0000 <= c as int
    ensures DecodeChar(EncodeChar(c) + rest) == Some((c, 4))
  {
    var n := c as int;
    var bs := EncodeChar(c) + rest;
    assert bs[0] as int == 0xF0 + n / 0x4_0000;
    assert bs[1] as int == 0x80 + n / 0x1000 % 0x40;
    assert bs[2] as int == 0x80 + n / 0x40 % 0x40 && bs[3] as int == 0x80 + n % 0x40;
    assert SequenceLength(bs[0]) == 4;
    assert n / 0x1000 == (n / 0x4_0000) * 0x40 + n / 0x1000 % 0x40;
    assert n / 0x40 == (n / 0x1000) * 0x40 + n / 0x40 % 0x40;
    assert CodePoint(bs, 4) == n;
  }

  lemma DecodeEncodedChar(c: char, rest: seq<byte>)
    ensures DecodeChar(EncodeChar(c) + rest) == Some((c, |EncodeChar(c)|))
  {
    var n := c as int;
    if n < 0x80 {
    } else if n < 0x800 {
      DecodeTwoByteChar(c, rest);
    } else if n < 0x1_0000 {
      DecodeThreeByteChar(c, rest);
    } else {
      DecodeFourByteChar(c, rest);
    }
  }

  /** Decoding undoes encoding, so distinct strings have distinct encodings. */
  lemma {:induction false} DecodeEncode(s: string)
    ensures Decode(Encode(s)) == Some(s)
  {
    if s != [] {
      var head := EncodeChar(s[0]);
      var bs := Encode(s);
      DecodeEncodedChar(s[0], Encode(s[1..]));
      assert bs[|head|..] == Encode(s[1..]);
      DecodeEncode(s[1..]);
      assert [s[0]] + s[1..] == s;
    }
  }

  lemma EncodeInjective(s: string, t: string)
    requires Encode(s) == Encode(t)
    ensures s == t
  {
    DecodeEncode(s);
    DecodeEncode(t);
  }
}
