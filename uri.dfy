/**
 * Uri.EscapeDataString, which AuthService.ForgotPasswordAsync applies to the token and to
 * the e-mail address when it builds the reset link: the unreserved characters of section
 * 2.3 of RFC 3986 are kept, every other character is written as the UTF-8 bytes of its
 * code point, each as '%' and two upper-case hexadecimal digits (section 2.1).
 */
module Uri {
  import opened Base64

  predicate Unreserved(c: char) {
    ('A' <= c <= 'Z') || ('a' <= c <= 'z') || ('0' <= c <= '9')
    || c == '-' || c == '.' || c == '_' || c == '~'
  }

  /** The UTF-8 encoding of one Unicode scalar value (section 3 of RFC 3629). */
  function Utf8(c: char): (r: seq<byte>)
    ensures 1 <= |r| <= 4
    ensures (c as int < 0x80) <==> |r| == 1
    ensures |r| == 1 ==> r[0] == c as int
  {
    var n := c as int;
    if n < 0x80 then [n]
    else if n < 0x800 then [0xC0 + n / 0x40, 0x80 + n % 0x40]
    else if n < 0x1_0000 then [0xE0 + n / 0x1000, 0x80 + (n / 0x40) % 0x40, 0x80 + n % 0x40]
    else [0xF0 + n / 0x4_0000, 0x80 + (n / 0x1000) % 0x40, 0x80 + (n / 0x40) % 0x40, 0x80 + n % 0x40]
  }

  function HexDigit(d: int): (c: char)
    requires 0 <= d < 16
    ensures Unreserved(c)
  {
    if d < 10 then ('0' as int + d) as char else ('A' as int + (d - 10)) as char
  }

  function PercentEncode(bs: seq<byte>): (r: string)
    ensures |r| == 3 * |bs|
    ensures forall k :: 0 <= k < |r| ==> r[k] == '%' || Unreserved(r[k])
  {
    if bs == [] then []
    else ['%', HexDigit(bs[0] / 16), HexDigit(bs[0] % 16)] + PercentEncode(bs[1..])
  }

  /** Uri.EscapeDataString. What comes out is unreserved characters and '%' only, and a
      string of unreserved characters comes out unchanged. */
  function EscapeDataString(s: string): (r: string)
    ensures forall k :: 0 <= k < |r| ==> r[k] == '%' || Unreserved(r[k])
    ensures |r| >= |s|
    ensures (forall k :: 0 <= k < |s| ==> Unreserved(s[k])) ==> r == s
  {
    if s == [] then []
    else (if Unreserved(s[0]) then [s[0]] else PercentEncode(Utf8(s[0]))) + EscapeDataString(s[1..])
  }

  /** A reset token never needs escaping: the reset link carries it verbatim. */
  lemma TokenNeedsNoEscaping(bs: seq<byte>)
    ensures EscapeDataString(ResetToken(bs)) == ResetToken(bs)
  {
    TokenIsBase64Url(bs);
    var sx := Sextets(bs);
    forall k | 0 <= k < |sx|
      ensures Unreserved(Chars(UrlSafe, sx)[k])
    {
      CharInUrlAlphabet(sx[k]);
    }
  }
}
