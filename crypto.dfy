/**
 * Stand-ins for BCrypt.Net.BCrypt.HashPassword and BCrypt.Net.BCrypt.Verify. BCrypt's key
 * schedule reads only the first 72 bytes of the UTF-8 password, so a hash verifies
 * exactly the passwords that agree with its own on those bytes. The salt and the cost
 * factor are not modelled: a function gives every password one hash.
 */
module Crypto {
  import opened Base64
  import Uri

  const KeyLength := 72

  /** The UTF-8 bytes of a string. */
  function Utf8Bytes(s: string): (r: seq<byte>)
    ensures |r| >= |s|
  {
    if s == [] then [] else Uri.Utf8(s[0]) + Utf8Bytes(s[1..])
  }

  lemma {:induction false} Utf8BytesAppend(s: string, t: string)
    ensures Utf8Bytes(s + t) == Utf8Bytes(s) + Utf8Bytes(t)
    decreases |s|
  {
    if s == [] {
      assert s + t == t;
    } else {
      assert (s + t)[1..] == s[1..] + t;
      Utf8BytesAppend(s[1..], t);
    }
  }

  /** The bytes of the password BCrypt uses. */
  function Key(password: string): (k: seq<byte>)
    ensures |k| <= KeyLength
  {
    var b := Utf8Bytes(password);
    if |b| <= KeyLength then b else b[..KeyLength]
  }

  function ByteChars(bs: seq<byte>): (s: string)
    ensures |s| == |bs|
    ensures forall i :: 0 <= i < |bs| ==> s[i] as int == bs[i]
  {
    seq(|bs|, i requires 0 <= i < |bs| => bs[i] as char)
  }

  function Hash(password: string): string {
    "$2a$" + ByteChars(Key(password))
  }

  predicate Verify(password: string, hash: string) {
    hash == Hash(password)
  }

  /** A hash verifies its own password, and another password exactly when the two agree
      on their first 72 UTF-8 bytes. */
  lemma VerifyHash(password: string, other: string)
    ensures Verify(password, Hash(password))
    ensures Verify(other, Hash(password)) <==> Key(other) == Key(password)
  {
    if Verify(other, Hash(password)) {
      var a, b := ByteChars(Key(other)), ByteChars(Key(password));
      assert ("$2a$" + a)[4..] == a;
      assert ("$2a$" + b)[4..] == b;
      assert forall i :: 0 <= i < |a| ==> Key(other)[i] == a[i] as int == b[i] as int == Key(password)[i];
    }
  }

  /** A password that is already 72 bytes long verifies with anything appended to it. */
  lemma LongPasswordSuffixVerifies(password: string, suffix: string)
    requires |Utf8Bytes(password)| >= KeyLength
    ensures Verify(password + suffix, Hash(password))
  {
    Utf8BytesAppend(password, suffix);
    var b := Utf8Bytes(password);
    assert (b + Utf8Bytes(suffix))[..KeyLength] == b[..KeyLength];
    VerifyHash(password, password + suffix);
  }
}
