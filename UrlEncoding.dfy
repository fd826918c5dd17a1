/**
 * PHP's `rawurlencode`: percent-encoding as RFC 3986 defines it. The
 * unreserved characters of section 2.3 are kept; every other byte becomes
 * `%` followed by two upper-case hexadecimal digits (section 2.1). The
 * decoder of section 2.1 is its partner.
 */
module UrlEncoding {
  import opened Wrappers

  newtype byte = x: int | 0 <= x < 256

  /** Section 2.3 of RFC 3986: ALPHA / DIGIT / "-" / "." / "_" / "~". */
  predicate IsUnreserved(b: byte) {
    var c := b as int;
    (65 <= c <= 90) || (97 <= c <= 122) || (48 <= c <= 57) || c == 45 || c == 46 || c == 95 || c == 126
  }

  predicate IsUnreservedChar(c: char) {
    c as int < 256 && IsUnreserved(c as int as byte)
  }

  /** An upper-case hexadecimal digit, the form section 2.1 recommends. */
  predicate IsUpperHex(c: char) {
    ('0' <= c <= '9') || ('A' <= c <= 'F')
  }

  function HexDigit(n: nat): (c: char)
    requires n < 16
    ensures IsUpperHex(c)
  {
    "0123456789ABCDEF"[n]
  }

  /** The value of a hexadecimal digit of either case. */
  function HexValue(c: char): (v: Option<nat>)
    ensures v.Some? ==> v.value < 16
    ensures IsUpperHex(c) ==> v.Some?
  {
    if '0' <= c <= '9' then Some(c as int - '0' as int)
    else if 'A' <= c <= 'F' then Some(c as int - 'A' as int + 10)
    else if 'a' <= c <= 'f' then Some(c as int - 'a' as int + 10)
    else None
  }

  function EncodeByte(b: byte): string {
    if IsUnreserved(b) then [b as int as char]
    else ['%', HexDigit(b as int / 16), HexDigit(b as int % 16)]
  }

  /** PHP's `rawurlencode`, one byte at a time. */
  function RawUrlEncode(bs: seq<byte>): string {
    if bs == [] then [] else EncodeByte(bs[0]) + RawUrlEncode(bs[1..])
  }

  /** Section 2.1 percent-decoding; `None` for a stray `%` or a non-ASCII character. */
  function PercentDecode(s: string): Option<seq<byte>> {
    if s == [] then Some([])
    else if s[0] == '%' then
      if |s| < 3 || HexValue(s[1]).None? || HexValue(s[2]).None? then None
      else
        match PercentDecode(s[3..])
        case None => None
        case Some(rest) => Some([(HexValue(s[1]).value * 16 + HexValue(s[2]).value) as byte] + rest)
    else if s[0] as int < 128 then
      match PercentDecode(s[1..])
      case None => None
      case Some(rest) => Some([s[0] as int as byte] + rest)
    else None
  }

  /** The byte an escape `%hl` with upper-case digits stands for. */
  function EscapedByte(h: char, l: char): byte
    requires IsUpperHex(h) && IsUpperHex(l)
  {
    (HexValue(h).value * 16 + HexValue(l).value) as byte
  }

  /**
   * Canonical RFC 3986 percent-encoded text: unreserved characters appear
   * as themselves (section 2.3 says they should not be escaped) and every
   * escape `%XX` has upper-case digits and stands for a byte that is not
   * unreserved.
   */
  predicate IsEncoded(s: string) {
    if s == [] then true
    else if s[0] == '%' then
      && |s| >= 3 && IsUpperHex(s[1]) && IsUpperHex(s[2])
      && !IsUnreserved(EscapedByte(s[1], s[2]))
      && IsEncoded(s[3..])
    else IsUnreservedChar(s[0]) && IsEncoded(s[1..])
  }

  lemma HexRoundTrip(n: nat)
    requires n < 16
    ensures HexValue(HexDigit(n)) == Some(n)
  {
  }

  /** Decoding what `rawurlencode` produced gives the bytes back. */
  lemma {:induction false} DecodeRawUrlEncode(bs: seq<byte>)
    ensures PercentDecode(RawUrlEncode(bs)) == Some(bs)
  {
    if bs != [] {
      var rest := RawUrlEncode(bs[1..]);
      assert PercentDecode(rest) == Some(bs[1..]) by {
        DecodeRawUrlEncode(bs[1..]);
      }
      DecodeEncodeByte(bs[0], rest, bs[1..]);
      assert [bs[0]] + bs[1..] == bs;
    }
  }

  /** Decoding one encoded byte in front of text that decodes to `tail`. */
  lemma DecodeEncodeByte(b: byte, rest: string, tail: seq<byte>)
    requires PercentDecode(rest) == Some(tail)
    ensures PercentDecode(EncodeByte(b) + rest) == Some([b] + tail)
  {
    if IsUnreserved(b) {
      var s := EncodeByte(b) + rest;
      assert s[0] == b as int as char && s[1..] == rest;
    } else {
      var hi := b as int / 16;
      var lo := b as int % 16;
      assert (hi * 16 + lo) as byte == b;
      DecodeEscape(hi, lo, rest, tail);
    }
  }

  /** A `%XX` escape decodes to the byte its two digits spell. */
  lemma DecodeEscape(hi: nat, lo: nat, rest: string, tail: seq<byte>)
    requires hi < 16 && lo < 16
    requires PercentDecode(rest) == Some(tail)
    ensures PercentDecode(['%', HexDigit(hi), HexDigit(lo)] + rest) == Some([(hi * 16 + lo) as byte] + tail)
  {
    var s := ['%', HexDigit(hi), HexDigit(lo)] + rest;
    HexRoundTrip(hi);
    HexRoundTrip(lo);
    assert s[0] == '%' && s[1] == HexDigit(hi) && s[2] == HexDigit(lo) && s[3..] == rest;
  }

  /** `rawurlencode` keeps unreserved characters and escapes exactly the other bytes, with upper-case digits. */
  lemma {:induction false} RawUrlEncodeIsEncoded(bs: seq<byte>)
    ensures IsEncoded(RawUrlEncode(bs))
  {
    if bs != [] {
      var b := bs[0];
      var e := EncodeByte(b);
      var rest := RawUrlEncode(bs[1..]);
      RawUrlEncodeIsEncoded(bs[1..]);
      if IsUnreserved(b) {
        assert (e + rest)[1..] == rest;
      } else {
        var hi := b as int / 16;
        var lo := b as int % 16;
        assert EscapedByte(HexDigit(hi), HexDigit(lo)) == b by {
          HexRoundTrip(hi);
          HexRoundTrip(lo);
        }
        assert (e + rest)[3..] == rest;
      }
    }
  }

  /** An upper-case hexadecimal digit is the digit of its own value. */
  lemma HexDigitOfValue(c: char)
    requires IsUpperHex(c)
    ensures HexDigit(HexValue(c).value) == c
  {
  }

  /**
   * Canonical encoding is unique: encoded text that decodes to `bs` is
   * exactly what `rawurlencode` makes of `bs`.
   */
  lemma {:induction false} EncodedIsRawUrlEncode(s: string, bs: seq<byte>)
    requires IsEncoded(s) && PercentDecode(s) == Some(bs)
    ensures s == RawUrlEncode(bs)
    decreases |s|
  {
    if s != [] {
      var k := if s[0] == '%' then 3 else 1;
      if s[0] == '%' {
        EncodedEscapeHead(s, bs);
      } else {
        EncodedCharHead(s, bs);
      }
      assert s[k..] == RawUrlEncode(bs[1..]) by {
        EncodedIsRawUrlEncode(s[k..], bs[1..]);
      }
      assert s == s[..k] + s[k..];
    }
  }

  /** Encoded text starting with an escape: the escape is `rawurlencode` of the first decoded byte. */
  lemma {:induction false} EncodedEscapeHead(s: string, bs: seq<byte>)
    requires IsEncoded(s) && PercentDecode(s) == Some(bs) && s != [] && s[0] == '%'
    ensures |s| >= 3 && bs != [] && s[..3] == EncodeByte(bs[0])
    ensures IsEncoded(s[3..]) && PercentDecode(s[3..]) == Some(bs[1..])
  {
    EncodedEscapeParts(s);
    DecodeEscapeParts(s, bs);
    EscapeIsEncodeByte(s[1], s[2]);
    assert s[..3] == ['%', s[1], s[2]];
  }

  /** What `IsEncoded` says of text that starts with `%`. */
  lemma {:induction false} EncodedEscapeParts(s: string)
    requires IsEncoded(s) && s != [] && s[0] == '%'
    ensures |s| >= 3 && IsUpperHex(s[1]) && IsUpperHex(s[2])
    ensures !IsUnreserved(EscapedByte(s[1], s[2])) && IsEncoded(s[3..])
  {
  }

  /** What `PercentDecode` says of text that starts with an upper-case escape. */
  lemma {:induction false} DecodeEscapeParts(s: string, bs: seq<byte>)
    requires |s| >= 3 && s[0] == '%' && IsUpperHex(s[1]) && IsUpperHex(s[2])
    requires PercentDecode(s) == Some(bs)
    ensures bs != [] && bs[0] == EscapedByte(s[1], s[2]) && PercentDecode(s[3..]) == Some(bs[1..])
  {
    var tail := PercentDecode(s[3..]).value;
    assert bs == [EscapedByte(s[1], s[2])] + tail;
  }

  /** Encoded text starting with an unreserved character: it is `rawurlencode` of the first decoded byte. */
  lemma {:induction false} EncodedCharHead(s: string, bs: seq<byte>)
    requires IsEncoded(s) && PercentDecode(s) == Some(bs) && s != [] && s[0] != '%'
    ensures bs != [] && s[..1] == EncodeByte(bs[0])
    ensures IsEncoded(s[1..]) && PercentDecode(s[1..]) == Some(bs[1..])
  {
    var tail := PercentDecode(s[1..]).value;
    assert bs == [s[0] as int as byte] + tail;
  }

  /** An escape of a reserved byte is how `rawurlencode` writes that byte. */
  lemma EscapeIsEncodeByte(h: char, l: char)
    requires IsUpperHex(h) && IsUpperHex(l) && !IsUnreserved(EscapedByte(h, l))
    ensures EncodeByte(EscapedByte(h, l)) == ['%', h, l]
  {
    var b := EscapedByte(h, l);
    var x := HexValue(h).value;
    var y := HexValue(l).value;
    assert b as int == x * 16 + y;
    assert b as int / 16 == x && b as int % 16 == y;
    HexDigitOfValue(h);
    HexDigitOfValue(l);
  }

  /** UTF-8 encoding of one Unicode scalar value. */
  function Utf8Char(c: char): (r: seq<byte>)
    ensures 1 <= |r| <= 4
    ensures c as int < 128 ==> r == [c as int as byte]
  {
    var n := c as int;
    if n < 0x80 then [n as byte]
    else if n < 0x800 then [(0xC0 + n / 0x40) as byte, (0x80 + n % 0x40) as byte]
    else if n < 0x10000 then
      [(0xE0 + n / 0x1000) as byte, (0x80 + (n / 0x40) % 0x40) as byte, (0x80 + n % 0x40) as byte]
    else
      [(0xF0 + n / 0x40000) as byte, (0x80 + (n / 0x1000) % 0x40) as byte,
       (0x80 + (n / 0x40) % 0x40) as byte, (0x80 + n % 0x40) as byte]
  }

  /** The bytes of a string as PHP holds it. */
  function Utf8Encode(s: string): seq<byte> {
    if s == [] then [] else Utf8Char(s[0]) + Utf8Encode(s[1..])
  }
}
