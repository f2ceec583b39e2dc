/**
 * Percent-encoding as Python's `urllib.parse.quote(s)` does it with its
 * default `safe="/"` (section 2.1 of RFC 3986, keeping the unreserved
 * characters of section 2.3 and "/"), and the decoding that
 * `urllib.parse.unquote_to_bytes` performs.
 */
module Percent {
  import opened Wrappers
  import opened Utf8

  const HexDigits := "0123456789ABCDEF"

  predicate IsAsciiLetter(c: char)
  {
    'A' <= c <= 'Z' || 'a' <= c <= 'z'
  }

  predicate IsDigit(c: char)
  {
    '0' <= c <= '9'
  }

  /** The characters `quote` keeps as they are: the unreserved set of RFC 3986 plus the `safe` default "/". */
  predicate IsSafeChar(c: char)
  {
    IsAsciiLetter(c) || IsDigit(c) || c == '_' || c == '.' || c == '-' || c == '~' || c == '/'
  }

  predicate IsUpperHexDigit(c: char)
  {
    IsDigit(c) || 'A' <= c <= 'F'
  }

  predicate IsHexDigit(c: char)
  {
    IsUpperHexDigit(c) || 'a' <= c <= 'f'
  }

  function HexValue(c: char): (v: nat)
    requires IsHexDigit(c)
    ensures v < 16
  {
    if IsDigit(c) then c as int - '0' as int
    else if 'A' <= c <= 'F' then c as int - 'A' as int + 10
    else c as int - 'a' as int + 10
  }

  /** One byte as `quote` writes it: the byte's own character if it is safe, `%XX` with upper-case hex otherwise. */
  function QuoteByte(b: byte): (s: string)
  {
    if b < 0x80 && IsSafeChar(b as int as char) then [b as int as char]
    else ['%', HexDigits[b as int / 16], HexDigits[b as int % 16]]
  }

  function QuoteBytes(bs: seq<byte>): string
  {
    if bs == [] then "" else QuoteByte(bs[0]) + QuoteBytes(bs[1..])
  }

  /** `urllib.parse.quote(s)`: the UTF-8 bytes of `s`, each written by `QuoteByte`. */
  function Quote(s: string): (r: string)
    ensures IsQuoted(r)
  {
    QuoteBytesRoundTrip(Encode(s));
    QuoteBytes(Encode(s))
  }

  /** A string made only of safe characters and `%XX` triples with upper-case hex digits. */
  predicate IsQuoted(s: string)
    decreases |s|
  {
    if s == [] then true
    else if IsSafeChar(s[0]) then IsQuoted(s[1..])
    else |s| >= 3 && s[0] == '%' && IsUpperHexDigit(s[1]) && IsUpperHexDigit(s[2]) && IsQuoted(s[3..])
  }

  /**
   * `urllib.parse.unquote_to_bytes(s)`: every `%XX` with two hex digits
   * (either case) becomes that byte; any other character, including a `%`
   * not followed by two hex digits, becomes its own UTF-8 bytes.
   */
  function Unquote(s: string): seq<byte>
    decreases |s|
  {
    if s == [] then []
    else if s[0] == '%' && |s| >= 3 && IsHexDigit(s[1]) && IsHexDigit(s[2]) then
      [(HexValue(s[1]) * 16 + HexValue(s[2])) as byte] + Unquote(s[3..])
    else
      EncodeChar(s[0]) + Unquote(s[1..])
  }

  lemma HexDigitValue(k: nat)
    requires k < 16
    ensures IsUpperHexDigit(HexDigits[k]) && HexValue(HexDigits[k]) == k
  {
  }

  lemma QuoteSafeByteShape(b: byte, rest: string)
    requires IsQuoted(rest)
    requires b < 0x80 && IsSafeChar(b as int as char)
    ensures IsQuoted([b as int as char] + rest)
    ensures Unquote([b as int as char] + rest) == [b] + Unquote(rest)
  {
    var s := [b as int as char] + rest;
    assert s[0] != '%';
    assert s[1..] == rest;
  }

  lemma QuoteEscapedByteShape(b: byte, rest: string)
    requires IsQuoted(rest)
    ensures IsQuoted(['%', HexDigits[b as int / 16], HexDigits[b as int % 16]] + rest)
    ensures Unquote(['%', HexDigits[b as int / 16], HexDigits[b as int % 16]] + rest) == [b] + Unquote(rest)
  {
    var hi, lo := b as int / 16, b as int % 16;
    HexDigitValue(hi);
    HexDigitValue(lo);
    var s := ['%', HexDigits[hi], HexDigits[lo]] + rest;
    assert s[3..] == rest;
    assert 16 * HexValue(s[1]) + HexValue(s[2]) == b as int;
  }

  lemma QuoteByteShape(b: byte, rest: string)
    requires IsQuoted(rest)
    ensures IsQuoted(QuoteByte(b) + rest)
    ensures Unquote(QuoteByte(b) + rest) == [b] + Unquote(rest)
  {
    if b < 0x80 && IsSafeChar(b as int as char) {
      QuoteSafeByteShape(b, rest);
    } else {
      QuoteEscapedByteShape(b, rest);
    }
  }

  /** `Quote` writes only safe characters and well-formed upper-case escapes, and `Unquote` gives back the bytes. */
  lemma {:induction false} QuoteBytesRoundTrip(bs: seq<byte>)
    ensures IsQuoted(QuoteBytes(bs))
    ensures Unquote(QuoteBytes(bs)) == bs
  {
    if bs != [] {
      QuoteBytesRoundTrip(bs[1..]);
      QuoteByteShape(bs[0], QuoteBytes(bs[1..]));
      assert [bs[0]] + bs[1..] == bs;
    }
  }

  /** Percent-decoding the quoted form of `s` gives back the UTF-8 bytes of `s`, hence `s` itself. */
  lemma QuoteRoundTrip(s: string)
    ensures IsQuoted(Quote(s))
    ensures Unquote(Quote(s)) == Encode(s)
    ensures Decode(Unquote(Quote(s))) == Some(s)
  {
    QuoteBytesRoundTrip(Encode(s));
    DecodeEncode(s);
  }

  lemma {:induction false} EncodeAppend(a: string, b: string)
    ensures Encode(a + b) == Encode(a) + Encode(b)
  {
    if a != [] {
      calc {
        Encode(a + b);
        EncodeChar(a[0]) + Encode((a + b)[1..]);
        { assert (a + b)[1..] == a[1..] + b; }
        EncodeChar(a[0]) + Encode(a[1..] + b);
        { EncodeAppend(a[1..], b); }
        EncodeChar(a[0]) + (Encode(a[1..]) + Encode(b));
        (EncodeChar(a[0]) + Encode(a[1..])) + Encode(b);
        Encode(a) + Encode(b);
      }
    } else {
      assert a + b == b;
    }
  }

  lemma {:induction false} QuoteBytesAppend(a: seq<byte>, b: seq<byte>)
    ensures QuoteBytes(a + b) == QuoteBytes(a) + QuoteBytes(b)
  {
    if a != [] {
      calc {
        QuoteBytes(a + b);
        QuoteByte(a[0]) + QuoteBytes((a + b)[1..]);
        { assert (a + b)[1..] == a[1..] + b; }
        QuoteByte(a[0]) + QuoteBytes(a[1..] + b);
        { QuoteBytesAppend(a[1..], b); }
        QuoteByte(a[0]) + (QuoteBytes(a[1..]) + QuoteBytes(b));
        (QuoteByte(a[0]) + QuoteBytes(a[1..])) + QuoteBytes(b);
        QuoteBytes(a) + QuoteBytes(b);
      }
    } else {
      assert a + b == b;
    }
  }

  /** Quoting works character by character. */
  lemma QuoteAppend(a: string, b: string)
    ensures Quote(a + b) == Quote(a) + Quote(b)
  {
    EncodeAppend(a, b);
    QuoteBytesAppend(Encode(a), Encode(b));
  }

  /** A string of safe characters is its own quoted form. */
  lemma {:induction false} QuoteSafe(s: string)
    requires forall k | 0 <= k < |s| :: IsSafeChar(s[k])
    ensures Quote(s) == s
  {
    if s != [] {
      QuoteAppend([s[0]], s[1..]);
      assert [s[0]] + s[1..] == s;
      QuoteSafe(s[1..]);
    }
  }

  /** An ASCII character outside the safe set is written as `%` and its two upper-case hex digits. */
  lemma QuoteUnsafeAscii(c: char)
    requires c as int < 0x80 && !IsSafeChar(c)
    ensures Quote([c]) == ['%', HexDigits[c as int / 16], HexDigits[c as int % 16]]
  {
    var b := c as int as byte;
    assert Encode([c]) == [b] by {
      assert Encode([c]) == EncodeChar(c) + Encode([]);
    }
    assert b as int as char == c;
    assert QuoteBytes([b]) == QuoteByte(b) + QuoteBytes([]);
  }
}
