/**
 Percent-encoding as `urllib.parse.quote` does it (section 2.1 of RFC 3986):
 a character outside the kept set is replaced by its UTF-8 bytes, each written
 `%XY` with upper-case hexadecimal digits. The kept set is always the
 unreserved characters of section 2.3 of RFC 3986 (ASCII letters, digits and
 `-._~`), plus the ASCII characters of the `safe` argument. Decoding is
 `urllib.parse.unquote_to_bytes`: `%XY` with two hexadecimal digits becomes
 one byte, anything else stands for its own UTF-8 bytes.
 */
module Percent {

  type Byte = b: int | 0 <= b < 256

  /** The UTF-8 encoding of one Unicode scalar value. */
  function Utf8Char(c: char): (bs: seq<Byte>)
    ensures 1 <= |bs| <= 4
    ensures |bs| == 1 <==> c as int < 0x80
    ensures |bs| == 1 ==> bs[0] == c as int
    ensures forall i :: 1 <= i < |bs| ==> 0x80 <= bs[i] < 0xC0
    ensures Utf8Value(bs) == c as int
  {
    var n := c as int;
    var d0, n1 := n % 64, n / 64;
    var d1, n2 := n1 % 64, n1 / 64;
    var d2, n3 := n2 % 64, n2 / 64;
    assert n == n1 * 64 + d0 && n1 == n2 * 64 + d1 && n2 == n3 * 64 + d2;
    if n < 0x80 then [n]
    else if n < 0x800 then [0xC0 + n1, 0x80 + d0]
    else if n < 0x10000 then [0xE0 + n2, 0x80 + d1, 0x80 + d0]
    else [0xF0 + n3, 0x80 + d2, 0x80 + d1, 0x80 + d0]
  }

  /** The code point a one- to four-byte UTF-8 sequence stands for (the decoder's arithmetic). */
  function Utf8Value(bs: seq<Byte>): int
    requires 1 <= |bs| <= 4
  {
    var b := seq(|bs|, i requires 0 <= i < |bs| => bs[i] as int);
    if |b| == 1 then b[0]
    else if |b| == 2 then (b[0] - 0xC0) * 64 + (b[1] - 0x80)
    else if |b| == 3 then ((b[0] - 0xE0) * 64 + (b[1] - 0x80)) * 64 + (b[2] - 0x80)
    else (((b[0] - 0xF0) * 64 + (b[1] - 0x80)) * 64 + (b[2] - 0x80)) * 64 + (b[3] - 0x80)
  }

  /** `s.encode('utf-8')`. */
  function Utf8(s: string): (bs: seq<Byte>)
    ensures |bs| >= |s|
  {
    if |s| == 0 then [] else Utf8Char(s[0]) + Utf8(s[1..])
  }

  /** The unreserved characters of section 2.3 of RFC 3986, which `quote` never encodes. */
  predicate Unreserved(c: char) {
    ('A' <= c <= 'Z') || ('a' <= c <= 'z') || ('0' <= c <= '9') || c == '-' || c == '.' || c == '_' || c == '~'
  }

  /** Whether `quote(..., safe)` keeps `c` as it is; only the ASCII characters of `safe` count. */
  predicate Kept(c: char, safe: string) {
    Unreserved(c) || (c in safe && c as int < 0x80)
  }

  function HexDigit(v: int): (c: char)
    requires 0 <= v < 16
    ensures IsHexDigit(c) && HexValue(c) == v
    ensures Unreserved(c)
  {
    if v < 10 then ('0' as int + v) as char else ('A' as int + v - 10) as char
  }

  predicate IsHexDigit(c: char) {
    ('0' <= c <= '9') || ('A' <= c <= 'F') || ('a' <= c <= 'f')
  }

  function HexValue(c: char): (v: int)
    requires IsHexDigit(c)
    ensures 0 <= v < 16
  {
    if '0' <= c <= '9' then c as int - '0' as int
    else if 'A' <= c <= 'F' then c as int - 'A' as int + 10
    else c as int - 'a' as int + 10
  }

  /** `%XY` for each byte. */
  function PercentBytes(bs: seq<Byte>): (r: string)
    ensures |r| == 3 * |bs|
  {
    if |bs| == 0 then ""
    else ['%', HexDigit(bs[0] / 16), HexDigit(bs[0] % 16)] + PercentBytes(bs[1..])
  }

  function QuoteChar(c: char, safe: string): string {
    if Kept(c, safe) then [c] else PercentBytes(Utf8Char(c))
  }

  /** `urllib.parse.quote(s, safe)`. */
  function Quote(s: string, safe: string): string {
    if |s| == 0 then "" else QuoteChar(s[0], safe) + Quote(s[1..], safe)
  }

  /** `urllib.parse.unquote_to_bytes(s)`. */
  function PercentDecode(s: string): seq<Byte>
  {
    if |s| == 0 then []
    else if |s| >= 3 && s[0] == '%' && IsHexDigit(s[1]) && IsHexDigit(s[2]) then
      [HexValue(s[1]) * 16 + HexValue(s[2])] + PercentDecode(s[3..])
    else Utf8Char(s[0]) + PercentDecode(s[1..])
  }

  lemma {:induction false} PercentBytesDecode(bs: seq<Byte>, rest: string)
    ensures PercentDecode(PercentBytes(bs) + rest) == bs + PercentDecode(rest)
    decreases |bs|
  {
    if |bs| > 0 {
      var t := PercentBytes(bs) + rest;
      assert t == ['%', HexDigit(bs[0] / 16), HexDigit(bs[0] % 16)] + (PercentBytes(bs[1..]) + rest);
      assert t[3..] == PercentBytes(bs[1..]) + rest;
      var hi, lo := HexDigit(bs[0] / 16), HexDigit(bs[0] % 16);
      assert HexValue(hi) * 16 + HexValue(lo) == bs[0];
      assert PercentDecode(t) == [bs[0]] + PercentDecode(t[3..]);
      PercentBytesDecode(bs[1..], rest);
      calc {
        PercentDecode(t);
        [bs[0]] + PercentDecode(t[3..]);
        [bs[0]] + (bs[1..] + PercentDecode(rest));
        { assert bs == [bs[0]] + bs[1..]; }
        bs + PercentDecode(rest);
      }
    } else {
      assert PercentBytes(bs) + rest == rest;
    }
  }

  /**
   The round trip: percent-decoding what `quote` produced gives back
   the UTF-8 bytes of the original string, whatever it held.
   */
  lemma {:induction false} QuoteRoundTrip(s: string, safe: string)
    requires '%' !in safe
    ensures PercentDecode(Quote(s, safe)) == Utf8(s)
    decreases |s|
  {
    if |s| > 0 {
      QuoteRoundTrip(s[1..], safe);
      var rest := Quote(s[1..], safe);
      if Kept(s[0], safe) {
        assert ([s[0]] + rest)[1..] == rest;
      } else {
        PercentBytesDecode(Utf8Char(s[0]), rest);
      }
    }
  }

  /** What `quote` produces is made of kept characters, `%` and hexadecimal digits. */
  lemma {:induction false} QuoteAlphabet(s: string, safe: string)
    ensures forall c :: c in Quote(s, safe) ==> Kept(c, safe) || c == '%'
    decreases |s|
  {
    if |s| > 0 {
      QuoteAlphabet(s[1..], safe);
      if !Kept(s[0], safe) {
        PercentBytesAlphabet(Utf8Char(s[0]));
      }
    }
  }

  lemma {:induction false} PercentBytesAlphabet(bs: seq<Byte>)
    ensures forall c :: c in PercentBytes(bs) ==> Unreserved(c) || c == '%'
    decreases |bs|
  {
    if |bs| > 0 {
      PercentBytesAlphabet(bs[1..]);
    }
  }

  /** With `safe=''` the encoded text holds none of the URL delimiters `&`, `=`, `?`, `#`, `/`, `:`. */
  lemma QuoteNoDelimiters(s: string)
    ensures forall c :: c in Quote(s, "") ==> c != '&' && c != '=' && c != '?' && c != '#' && c != '/' && c != ':'
  {
    QuoteAlphabet(s, "");
    forall c | c in Quote(s, "")
      ensures c != '&' && c != '=' && c != '?' && c != '#' && c != '/' && c != ':'
    {
      NotKeptDelimiter(c);
    }
  }

  lemma NotKeptDelimiter(c: char)
    requires Kept(c, "") || c == '%'
    ensures c != '&' && c != '=' && c != '?' && c != '#' && c != '/' && c != ':'
  {
  }

  /** A string made only of kept characters is left as it is. */
  lemma {:induction false} QuoteKeepsSafe(s: string, safe: string)
    requires forall i :: 0 <= i < |s| ==> Kept(s[i], safe)
    ensures Quote(s, safe) == s
    decreases |s|
  {
    if |s| > 0 {
      QuoteKeepsSafe(s[1..], safe);
      assert s == [s[0]] + s[1..];
    }
  }
}
