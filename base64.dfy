/**
 * The password-reset token string of AuthService.ForgotPasswordAsync: 32 random bytes run
 * through Convert.ToBase64String (the standard alphabet with '=' padding, section 4 of
 * RFC 4648) and then through `.Replace("+", "-").Replace("/", "_").Replace("=", "")`.
 * The lemmas show that this chain is exactly the unpadded "base64url" encoding of
 * section 5 of RFC 4648, that the token has 43 characters of that alphabet, and that
 * it can be decoded back to the bytes, so distinct bytes give distinct tokens.
 */
module Base64 {
  import opened Wrappers

  type byte = b: int | 0 <= b < 256
  type sextet = i: int | 0 <= i < 64

  /** Table 1 ("The Base 64 Alphabet") and Table 2 ("The URL and Filename safe Base 64
      Alphabet") of RFC 4648; they differ only at the values 62 and 63. */
  datatype Alphabet = Standard | UrlSafe

  function Char(a: Alphabet, i: sextet): char {
    if i < 26 then ('A' as int + i) as char
    else if i < 52 then ('a' as int + (i - 26)) as char
    else if i < 62 then ('0' as int + (i - 52)) as char
    else if i == 62 then (if a == Standard then '+' else '-')
    else (if a == Standard then '/' else '_')
  }

  /** The characters of Table 2. */
  predicate InUrlAlphabet(c: char) {
    ('A' <= c <= 'Z') || ('a' <= c <= 'z') || ('0' <= c <= '9') || c == '-' || c == '_'
  }

  /** The 6-bit values of section 4 of RFC 4648: every 24-bit group of input gives four,
      a final group of one byte gives two and a final group of two bytes gives three
      (the missing low bits are zero). */
  function Sextets(bs: seq<byte>): (r: seq<sextet>)
    ensures |r| == (4 * |bs| + 2) / 3
    decreases |bs|
  {
    if |bs| == 0 then []
    else if |bs| == 1 then [bs[0] / 4, (bs[0] % 4) * 16]
    else if |bs| == 2 then [bs[0] / 4, (bs[0] % 4) * 16 + bs[1] / 16, (bs[1] % 16) * 4]
    else
      [bs[0] / 4, (bs[0] % 4) * 16 + bs[1] / 16, (bs[1] % 16) * 4 + bs[2] / 64, bs[2] % 64]
      + Sextets(bs[3..])
  }

  /** The '=' characters that complete the last 4-character group. */
  function Padding(n: nat): (p: string)
    ensures forall k :: 0 <= k < |p| ==> p[k] == '='
    ensures |p| == (3 - n % 3) % 3
  {
    if n % 3 == 1 then "==" else if n % 3 == 2 then "=" else ""
  }

  function Chars(a: Alphabet, sx: seq<sextet>): (s: string)
    ensures |s| == |sx|
    ensures forall k :: 0 <= k < |sx| ==> s[k] == Char(a, sx[k])
  {
    seq(|sx|, k requires 0 <= k < |sx| => Char(a, sx[k]))
  }

  /** Base 64 encoding with alphabet `a`, with or without the '=' padding of section 3.2. */
  function Encode(bs: seq<byte>, a: Alphabet, pad: bool): string {
    Chars(a, Sextets(bs)) + (if pad then Padding(|bs|) else "")
  }

  /** Convert.ToBase64String. */
  function ToBase64String(bs: seq<byte>): string {
    Encode(bs, Standard, true)
  }

  /** String.Replace with one-character strings: every `from` becomes `to`. */
  function Replace(s: string, from: char, to: char): (r: string)
    ensures |r| == |s|
    ensures forall k :: 0 <= k < |s| ==> r[k] == (if s[k] == from then to else s[k])
  {
    if s == [] then [] else [if s[0] == from then to else s[0]] + Replace(s[1..], from, to)
  }

  /** String.Replace(c, ""): every occurrence of `c` is dropped. */
  function Remove(s: string, c: char): (r: string)
    ensures |r| <= |s|
    ensures forall k :: 0 <= k < |r| ==> r[k] != c
  {
    if s == [] then [] else (if s[0] == c then [] else [s[0]]) + Remove(s[1..], c)
  }

  /** The token built at AuthService.cs:134-142 from the random bytes. */
  function ResetToken(bs: seq<byte>): string {
    Remove(Replace(Replace(ToBase64String(bs), '+', '-'), '/', '_'), '=')
  }

  lemma {:induction false} RemoveAppend(s: string, t: string, c: char)
    ensures Remove(s + t, c) == Remove(s, c) + Remove(t, c)
    decreases |s|
  {
    if s == [] {
      assert s + t == t;
    } else {
      assert (s + t)[1..] == s[1..] + t;
      RemoveAppend(s[1..], t, c);
    }
  }

  lemma {:induction false} RemoveAbsent(s: string, c: char)
    requires forall k :: 0 <= k < |s| ==> s[k] != c
    ensures Remove(s, c) == s
    decreases |s|
  {
    if s != [] {
      RemoveAbsent(s[1..], c);
    }
  }

  lemma {:induction false} RemoveOnly(s: string, c: char)
    requires forall k :: 0 <= k < |s| ==> s[k] == c
    ensures Remove(s, c) == []
    decreases |s|
  {
    if s != [] {
      RemoveOnly(s[1..], c);
    }
  }

  /** The Replace chain turns the standard alphabet into the URL-safe one, one value at a time. */
  lemma ReplaceChar(i: sextet)
    ensures (var c := Char(Standard, i);
             var d := if c == '+' then '-' else c;
             if d == '/' then '_' else d) == Char(UrlSafe, i)
  {
  }

  /** The reset token is the unpadded base64url encoding of section 5 of RFC 4648. */
  lemma TokenIsBase64Url(bs: seq<byte>)
    ensures ResetToken(bs) == Encode(bs, UrlSafe, false)
  {
    var sx := Sextets(bs);
    var pad := Padding(|bs|);
    var std := Chars(Standard, sx) + pad;
    var url := Chars(UrlSafe, sx);
    var replaced := Replace(Replace(std, '+', '-'), '/', '_');
    assert replaced == url + pad by {
      forall k | 0 <= k < |std|
        ensures replaced[k] == (url + pad)[k]
      {
        if k < |sx| {
          ReplaceChar(sx[k]);
        }
      }
    }
    forall k | 0 <= k < |url|
      ensures url[k] != '='
    {
    }
    RemoveAppend(url, pad, '=');
    RemoveAbsent(url, '=');
    RemoveOnly(pad, '=');
    assert Remove(replaced, '=') == url;
  }

  lemma CharInUrlAlphabet(i: sextet)
    ensures InUrlAlphabet(Char(UrlSafe, i))
  {
  }

  /** 32 random bytes give a 43-character token drawn from Table 2 only. */
  lemma TokenShape(bs: seq<byte>)
    requires |bs| == 32
    ensures |ResetToken(bs)| == 43
    ensures forall k :: 0 <= k < |ResetToken(bs)| ==> InUrlAlphabet(ResetToken(bs)[k])
  {
    TokenIsBase64Url(bs);
    var sx := Sextets(bs);
    forall k | 0 <= k < |sx|
      ensures InUrlAlphabet(Chars(UrlSafe, sx)[k])
    {
      CharInUrlAlphabet(sx[k]);
    }
  }

  // Decoding (section 5 of RFC 4648, no padding): the inverse used to show that the
  // token keeps all the information of the random bytes.

  /** The value of a character in Table 2, if it is one. */
  function UrlIndex(c: char): (r: Option<sextet>)
    ensures r.Some? <==> InUrlAlphabet(c)
  {
    if 'A' <= c <= 'Z' then Some(c as int - 'A' as int)
    else if 'a' <= c <= 'z' then Some(c as int - 'a' as int + 26)
    else if '0' <= c <= '9' then Some(c as int - '0' as int + 52)
    else if c == '-' then Some(62)
    else if c == '_' then Some(63)
    else None
  }

  function Indices(s: string): (r: Option<seq<sextet>>)
    ensures r.Some? ==> |r.value| == |s|
  {
    if s == [] then Some([])
    else match (UrlIndex(s[0]), Indices(s[1..]))
      case (Some(i), Some(rest)) => Some([i] + rest)
      case _ => None
  }

  /** The bytes packed in a sequence of 6-bit values whose length is not 1 modulo 4. */
  function FromSextets(sx: seq<sextet>): (bs: seq<byte>)
    requires |sx| % 4 != 1
    decreases |sx|
  {
    if |sx| == 0 then []
    else
      var s0, s1 := sx[0] as int, sx[1] as int;
      if |sx| == 2 then [s0 * 4 + s1 / 16]
      else
        var s2 := sx[2] as int;
        if |sx| == 3 then [s0 * 4 + s1 / 16, (s1 % 16) * 16 + s2 / 4]
        else
          [s0 * 4 + s1 / 16, (s1 % 16) * 16 + s2 / 4, (s2 % 4) * 64 + sx[3] as int]
          + FromSextets(sx[4..])
  }

  /** Decodes an unpadded base64url string; None if it has a foreign character or a
      length no encoding has. */
  function DecodeUrl(s: string): Option<seq<byte>> {
    if |s| % 4 == 1 then None
    else match Indices(s)
      case Some(sx) => Some(FromSextets(sx))
      case None => None
  }

  lemma {:induction false} SextetsRoundTrip(bs: seq<byte>)
    ensures |Sextets(bs)| % 4 != 1
    ensures FromSextets(Sextets(bs)) == bs
    decreases |bs|
  {
    if |bs| >= 3 {
      var sx := Sextets(bs);
      SextetsRoundTrip(bs[3..]);
      assert sx[4..] == Sextets(bs[3..]);
      assert bs == bs[..3] + bs[3..];
    }
  }

  lemma {:induction false} IndicesOfChars(sx: seq<sextet>)
    ensures Indices(Chars(UrlSafe, sx)) == Some(sx)
    decreases |sx|
  {
    if sx != [] {
      var s := Chars(UrlSafe, sx);
      assert s[1..] == Chars(UrlSafe, sx[1..]);
      IndicesOfChars(sx[1..]);
      assert UrlIndex(s[0]) == Some(sx[0]);
      assert sx == [sx[0]] + sx[1..];
    }
  }

  /** Decoding the token gives back the random bytes. */
  lemma TokenRoundTrip(bs: seq<byte>)
    ensures DecodeUrl(ResetToken(bs)) == Some(bs)
  {
    TokenIsBase64Url(bs);
    SextetsRoundTrip(bs);
    var sx := Sextets(bs);
    IndicesOfChars(sx);
    assert ResetToken(bs) == Chars(UrlSafe, sx);
  }

  /** Distinct random bytes never give the same token. */
  lemma TokenInjective(bs: seq<byte>, cs: seq<byte>)
    requires ResetToken(bs) == ResetToken(cs)
    ensures bs == cs
  {
    TokenRoundTrip(bs);
    TokenRoundTrip(cs);
  }
}
