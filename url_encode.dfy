/**
 * PHP's `urlencode` and `urldecode`. A PHP string is a string of bytes, and the
 * text the build handles is UTF-8, so a string is first written as its UTF-8
 * bytes. `urlencode` keeps ASCII letters, digits, `-`, `_` and `.`, writes the
 * space as `+` and every other byte as `%` followed by two uppercase
 * hexadecimal digits. `urldecode` reads `+` as a space and `%` with two
 * hexadecimal digits (either case) as one byte, and keeps every other byte.
 */
module UrlEncoding {
  import opened Text

  type byte = b: int | 0 <= b < 256

  // ---------------------------------------------------------------- UTF-8

  /** The UTF-8 encoding of one Unicode scalar value: one to four bytes. */
  function Utf8Char(c: char): (bs: seq<byte>)
    ensures 1 <= |bs| <= 4
  {
    var n := c as int;
    if n < 0x80 then [n]
    else if n < 0x800 then [0xC0 + n / 64, 0x80 + n % 64]
    else if n < 0x10000 then [0xE0 + n / 4096, 0x80 + (n / 64) % 64, 0x80 + n % 64]
    else [0xF0 + n / 0x40000, 0x80 + (n / 4096) % 64, 0x80 + (n / 64) % 64, 0x80 + n % 64]
  }

  /** The UTF-8 bytes of a string. */
  function Utf8(s: string): seq<byte> {
    if s == [] then [] else Utf8Char(s[0]) + Utf8(s[1..])
  }

  /** How many bytes the sequence that starts with `b` takes. */
  function Utf8Width(b: byte): nat {
    if b < 0xC0 then 1 else if b < 0xE0 then 2 else if b < 0xF0 then 3 else 4
  }

  /** The code point a one- to four-byte sequence carries. */
  function Utf8Value(bs: seq<byte>): int
    requires 1 <= |bs| <= 4
  {
    var b := seq(|bs|, i requires 0 <= i < |bs| => bs[i] as int);
    if |bs| == 1 then b[0]
    else if |bs| == 2 then (b[0] - 0xC0) * 64 + (b[1] - 0x80)
    else if |bs| == 3 then (b[0] - 0xE0) * 4096 + (b[1] - 0x80) * 64 + (b[2] - 0x80)
    else (b[0] - 0xF0) * 0x40000 + (b[1] - 0x80) * 4096 + (b[2] - 0x80) * 64 + (b[3] - 0x80)
  }

  /** The character with code point `n`, or U+FFFD where `n` is no scalar value. */
  function ScalarOr(n: int): char {
    if 0 <= n < 0xD800 || 0xE000 <= n < 0x110000 then n as char else '\U{FFFD}'
  }

  /** Reading UTF-8 bytes back as text; a sequence cut short reads as U+FFFD. */
  function Utf8Decode(bs: seq<byte>): string
    decreases |bs|
  {
    if bs == [] then []
    else if |bs| < Utf8Width(bs[0]) then ['\U{FFFD}'] + Utf8Decode(bs[1..])
    else
      var k := Utf8Width(bs[0]);
      [ScalarOr(Utf8Value(bs[..k]))] + Utf8Decode(bs[k..])
  }

  /** The bytes of one character read back as that character, whatever follows. */
  lemma Utf8CharDecode(c: char, rest: seq<byte>)
    ensures Utf8Decode(Utf8Char(c) + rest) == [c] + Utf8Decode(rest)
  {
    var bs := Utf8Char(c);
    var all := bs + rest;
    Utf8CharValue(c);
    assert all[..|bs|] == bs && all[|bs|..] == rest;
  }

  /** The first byte announces the width of the sequence, and the sequence carries the code point. */
  lemma Utf8CharValue(c: char)
    ensures Utf8Width(Utf8Char(c)[0]) == |Utf8Char(c)|
    ensures Utf8Value(Utf8Char(c)) == c as int
  {
    var n := c as int;
    if n < 0x80 {
    } else if n < 0x800 {
      assert (n / 64) * 64 + n % 64 == n;
    } else if n < 0x10000 {
      assert (n / 64) == (n / 4096) * 64 + (n / 64) % 64;
      assert (n / 64) * 64 + n % 64 == n;
    } else {
      assert (n / 4096) == (n / 0x40000) * 64 + (n / 4096) % 64;
      assert (n / 64) == (n / 4096) * 64 + (n / 64) % 64;
      assert (n / 64) * 64 + n % 64 == n;
    }
  }

  /** UTF-8 loses nothing: decoding the bytes of a string gives the string back. */
  lemma {:induction false} Utf8RoundTrip(s: string)
    ensures Utf8Decode(Utf8(s)) == s
    decreases |s|
  {
    if s != [] {
      Utf8CharDecode(s[0], Utf8(s[1..]));
      Utf8RoundTrip(s[1..]);
      assert [s[0]] + s[1..] == s;
    }
  }

  /** An ASCII character is its own single byte. */
  lemma Utf8Ascii(c: char)
    requires c as int < 0x80
    ensures Utf8Char(c) == [c as int]
  {
  }

  // ---------------------------------------------------------------- urlencode

  /** The bytes `urlencode` keeps as they are: ASCII letters, digits, `-`, `_` and `.`. */
  predicate Unreserved(b: byte) {
    ('a' as int <= b <= 'z' as int) || ('A' as int <= b <= 'Z' as int) || ('0' as int <= b <= '9' as int)
    || b == '-' as int || b == '_' as int || b == '.' as int
  }

  /** An uppercase hexadecimal digit. */
  function HexDigit(d: int): char
    requires 0 <= d < 16
  {
    if d < 10 then ('0' as int + d) as char else ('A' as int + d - 10) as char
  }

  predicate IsHexDigit(c: char) {
    IsDigit(c) || ('A' <= c <= 'F') || ('a' <= c <= 'f')
  }

  /** The value of a hexadecimal digit in either case. */
  function HexValue(c: char): (d: int)
    requires IsHexDigit(c)
    ensures 0 <= d < 16
  {
    if IsDigit(c) then c as int - '0' as int
    else if 'A' <= c <= 'F' then c as int - 'A' as int + 10
    else c as int - 'a' as int + 10
  }

  lemma HexDigitValue(d: int)
    requires 0 <= d < 16
    ensures IsHexDigit(HexDigit(d)) && HexValue(HexDigit(d)) == d
  {
  }

  /** The characters an encoded string is made of: ASCII letters, digits, `-`, `_`, `.`, `+` and `%`. */
  predicate UrlSafe(c: char) {
    IsLower(c) || IsUpper(c) || IsDigit(c) || c == '-' || c == '_' || c == '.' || c == '+' || c == '%'
  }

  /** What `urlencode` writes for one byte. */
  function EncodeByte(b: byte): (r: string)
    ensures 1 <= |r| <= 3
    ensures forall i :: 0 <= i < |r| ==> UrlSafe(r[i])
  {
    if Unreserved(b) then [b as char]
    else if b == ' ' as int then "+"
    else ['%', HexDigit(b / 16), HexDigit(b % 16)]
  }

  function UrlEncodeBytes(bs: seq<byte>): (r: string)
    ensures forall i :: 0 <= i < |r| ==> UrlSafe(r[i])
  {
    if bs == [] then [] else EncodeByte(bs[0]) + UrlEncodeBytes(bs[1..])
  }

  /** `urlencode($s)`. */
  function UrlEncode(s: string): (r: string)
    ensures forall i :: 0 <= i < |r| ==> UrlSafe(r[i])
  {
    UrlEncodeBytes(Utf8(s))
  }

  // ---------------------------------------------------------------- urldecode

  /** `urldecode` as bytes. */
  function UrlDecodeBytes(s: string): seq<byte>
    decreases |s|
  {
    if s == [] then []
    else if s[0] == '+' then [' ' as int] + UrlDecodeBytes(s[1..])
    else if s[0] == '%' && |s| >= 3 && IsHexDigit(s[1]) && IsHexDigit(s[2]) then
      [HexValue(s[1]) * 16 + HexValue(s[2])] + UrlDecodeBytes(s[3..])
    else Utf8Char(s[0]) + UrlDecodeBytes(s[1..])
  }

  /** `urldecode($s)`, the bytes read as UTF-8 text. */
  function UrlDecode(s: string): string {
    Utf8Decode(UrlDecodeBytes(s))
  }

  /** Decoding undoes the encoding of one byte, whatever follows. */
  lemma DecodeEncodeByte(b: byte, t: string)
    ensures UrlDecodeBytes(EncodeByte(b) + t) == [b] + UrlDecodeBytes(t)
  {
    var e := EncodeByte(b);
    var s := e + t;
    if Unreserved(b) {
      assert s[0] == b as char && s[1..] == t;
      Utf8Ascii(b as char);
    } else if b == ' ' as int {
      assert s[0] == '+' && s[1..] == t;
    } else {
      HexDigitValue(b / 16);
      HexDigitValue(b % 16);
      assert s[0] == '%' && s[1] == HexDigit(b / 16) && s[2] == HexDigit(b % 16) && s[3..] == t;
    }
  }

  /** `urldecode` gives back the bytes `urlencode` was given. */
  lemma {:induction false} DecodeEncodeBytes(bs: seq<byte>)
    ensures UrlDecodeBytes(UrlEncodeBytes(bs)) == bs
    decreases |bs|
  {
    if bs != [] {
      DecodeEncodeByte(bs[0], UrlEncodeBytes(bs[1..]));
      DecodeEncodeBytes(bs[1..]);
      assert [bs[0]] + bs[1..] == bs;
    }
  }

  /** `urldecode(urlencode($s)) === $s`. */
  lemma UrlRoundTrip(s: string)
    ensures UrlDecode(UrlEncode(s)) == s
  {
    DecodeEncodeBytes(Utf8(s));
    Utf8RoundTrip(s);
  }

  /** Different strings are encoded differently. */
  lemma UrlEncodeInjective(a: string, b: string)
    requires UrlEncode(a) == UrlEncode(b)
    ensures a == b
  {
    UrlRoundTrip(a);
    UrlRoundTrip(b);
  }

  /** A string of ASCII letters, digits, `-`, `_` and `.` is encoded as itself. */
  lemma {:induction false} UrlEncodeUnreserved(s: string)
    requires forall i :: 0 <= i < |s| ==> IsLower(s[i]) || IsUpper(s[i]) || IsDigit(s[i]) || s[i] in "-_."
    ensures UrlEncode(s) == s
    decreases |s|
  {
    if s != [] {
      Utf8Ascii(s[0]);
      UrlEncodeUnreserved(s[1..]);
      assert Utf8(s) == [s[0] as int] + Utf8(s[1..]);
      assert [s[0]] + s[1..] == s;
    }
  }
}
