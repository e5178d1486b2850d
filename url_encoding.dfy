/**
 * PHP's `urlencode`, which `http_build_query` applies to every key and value:
 * letters, digits, `-`, `_` and `.` stay as they are, a space becomes `+`, and
 * every other byte of the UTF-8 text becomes `%` and two upper-case hex digits.
 */
module UrlEncoding {
  import SeqFacts

  type Byte = b: int | 0 <= b < 256

  predicate Unreserved(c: char)
  {
    ('A' <= c <= 'Z') || ('a' <= c <= 'z') || ('0' <= c <= '9') || c == '-' || c == '_' || c == '.'
  }

  /** The characters urlencode can produce. */
  predicate Encoded(c: char)
  {
    Unreserved(c) || c == '%' || c == '+'
  }

  /** The UTF-8 bytes of one character. */
  function Utf8(c: char): (bs: seq<Byte>)
    ensures 1 <= |bs| <= 4
    ensures (c as int < 0x80) <==> |bs| == 1
    ensures |bs| == 1 ==> bs[0] == c as int
    ensures forall i :: 1 <= i < |bs| ==> 0x80 <= bs[i] < 0xC0
  {
    var n := c as int;
    if n < 0x80 then [n]
    else if n < 0x800 then [0xC0 + n / 64, 0x80 + n % 64]
    else if n < 0x10000 then [0xE0 + n / 4096, 0x80 + (n / 64) % 64, 0x80 + n % 64]
    else [0xF0 + n / 262144, 0x80 + (n / 4096) % 64, 0x80 + (n / 64) % 64, 0x80 + n % 64]
  }

  /** The UTF-8 bytes of a string. */
  function Utf8String(s: string): seq<Byte>
  {
    if s == [] then [] else Utf8(s[0]) + Utf8String(s[1..])
  }

  function HexDigit(d: nat): (c: char)
    requires d < 16
    ensures Unreserved(c)
  {
    if d < 10 then ('0' as int + d) as char else ('A' as int + d - 10) as char
  }

  predicate IsHex(c: char)
  {
    ('0' <= c <= '9') || ('A' <= c <= 'F') || ('a' <= c <= 'f')
  }

  function HexValue(c: char): (d: nat)
    requires IsHex(c)
    ensures d < 16
  {
    if '0' <= c <= '9' then c as int - '0' as int
    else if 'A' <= c <= 'F' then c as int - 'A' as int + 10
    else c as int - 'a' as int + 10
  }

  predicate UnreservedByte(b: Byte)
  {
    b < 0x80 && Unreserved(b as char)
  }

  function EncodeByte(b: Byte): (s: string)
    ensures forall i :: 0 <= i < |s| ==> Encoded(s[i])
  {
    if UnreservedByte(b) then [b as char]
    else if b == 0x20 then "+"
    else ['%', HexDigit(b / 16), HexDigit(b % 16)]
  }

  function EncodeBytes(bs: seq<Byte>): (s: string)
    ensures forall i :: 0 <= i < |s| ==> Encoded(s[i])
  {
    if bs == [] then "" else EncodeByte(bs[0]) + EncodeBytes(bs[1..])
  }

  /** `urlencode(s)`; the result holds only unreserved characters, `%` and `+`. */
  function UrlEncode(s: string): (r: string)
    ensures forall i :: 0 <= i < |r| ==> Encoded(r[i])
  {
    if s == [] then "" else EncodeBytes(Utf8(s[0])) + UrlEncode(s[1..])
  }

  /** `urldecode`, to bytes: `+` is a space, `%XY` is the byte XY, anything else stands for itself. */
  function DecodeBytes(s: string): seq<int>
  {
    if s == [] then []
    else if s[0] == '+' then [0x20] + DecodeBytes(s[1..])
    else if s[0] == '%' && |s| >= 3 && IsHex(s[1]) && IsHex(s[2]) then
      [HexValue(s[1]) * 16 + HexValue(s[2])] + DecodeBytes(s[3..])
    else [s[0] as int] + DecodeBytes(s[1..])
  }

  lemma DecodeEncodedByte(b: Byte, rest: string)
    ensures DecodeBytes(EncodeByte(b) + rest) == [b] + DecodeBytes(rest)
  {
    var e := EncodeByte(b) + rest;
    if UnreservedByte(b) {
      assert e[0] == b as char && e[1..] == rest;
    } else if b == 0x20 {
      assert e[0] == '+' && e[1..] == rest;
    } else {
      assert e[0] == '%' && e[1] == HexDigit(b / 16) && e[2] == HexDigit(b % 16) && e[3..] == rest;
    }
  }

  lemma {:induction false} DecodeEncodedBytes(bs: seq<Byte>, rest: string)
    ensures DecodeBytes(EncodeBytes(bs) + rest) == bs + DecodeBytes(rest)
  {
    if bs == [] {
      assert EncodeBytes(bs) + rest == rest;
    } else {
      var head, tail := EncodeByte(bs[0]), EncodeBytes(bs[1..]) + rest;
      assert EncodeBytes(bs) == head + EncodeBytes(bs[1..]);
      SeqFacts.AppendAssoc(head, EncodeBytes(bs[1..]), rest);
      DecodeEncodedByte(bs[0], tail);
      DecodeEncodedBytes(bs[1..], rest);
      SeqFacts.HeadTail(bs, DecodeBytes(rest));
    }
  }

  /** Decoding what urlencode produced gives back the UTF-8 bytes of the original text. */
  lemma {:induction false} UrlDecodeRoundTrip(s: string)
    ensures DecodeBytes(UrlEncode(s)) == Utf8String(s)
  {
    if s != [] {
      DecodeEncodedBytes(Utf8(s[0]), UrlEncode(s[1..]));
      UrlDecodeRoundTrip(s[1..]);
    }
  }

  /** Text made of unreserved characters only is left as it is. */
  lemma {:induction false} UrlEncodeUnreserved(s: string)
    requires forall i :: 0 <= i < |s| ==> Unreserved(s[i])
    ensures UrlEncode(s) == s
  {
    if s != [] {
      assert Unreserved(s[0]);
      var b: Byte := s[0] as int;
      assert Utf8(s[0]) == [b];
      assert b as char == s[0] && UnreservedByte(b);
      assert EncodeBytes([b]) == EncodeByte(b) + EncodeBytes([]) == [s[0]];
      UrlEncodeUnreserved(s[1..]);
      assert s == [s[0]] + s[1..];
    }
  }
}
