/**
  UTF-8 as shared/utf8.c checks it, against section 3 of RFC 3629.
  */
module Utf8 {
  import opened CStrings
  import opened Escaping

  /** The byte at a position, and the NUL behind the string. */
  function Look(s: CStr, i: nat): Byte {
    if i < |s| then s[i] else NUL
  }

  /** utf8_encoded_expected_len() */
  function ExpectedLen(c: Byte): (n: nat)
    ensures n <= 6
  {
    if c < 0x80 then 1
    else if 0xc0 <= c < 0xe0 then 2
    else if 0xe0 <= c < 0xf0 then 3
    else if 0xf0 <= c < 0xf8 then 4
    else if 0xf8 <= c < 0xfc then 5
    else if 0xfc <= c < 0xfe then 6
    else 0
  }

  predicate IsContinuation(c: Byte) {
    0x80 <= c < 0xc0
  }

  /** The bits of the first byte that belong to the character. */
  function FirstBits(c: Byte, len: nat): nat {
    if len == 2 then c % 32
    else if len == 3 then c % 16
    else if len == 4 then c % 8
    else if len == 5 then c % 4
    else c % 2
  }

  /** The bits of a continuation byte. */
  function LowBits(c: Byte): nat {
    c % 64
  }

  /** The loop of utf8_encoded_to_unichar(), up to the n-th byte. */
  function Decoded(s: CStr, len: nat, n: nat): int
    requires 1 <= n
  {
    if n == 1 then FirstBits(Look(s, 0), len)
    else
      var before := Decoded(s, len, n - 1);
      if before < 0 || !IsContinuation(Look(s, n - 1)) then -EINVAL
      else before * 64 + LowBits(Look(s, n - 1))
  }

  /** utf8_unichar_to_encoded_len() */
  function EncodedLen(u: int): nat {
    if u < 0x80 then 1
    else if u < 0x800 then 2
    else if u < 0x10000 then 3
    else if u < 0x200000 then 4
    else if u < 0x4000000 then 5
    else 6
  }

  /** is_unicode_valid(): no surrogates and no noncharacters. */
  predicate UnicodeValid(u: nat) {
    u < 0x110000 && !(0xD800 <= u < 0xE000) && !(0xFDD0 <= u <= 0xFDEF) && u % 0x10000 < 0xFFFE
  }

  /** utf8_encoded_valid_unichar(): the length of the character the string begins with, or -EINVAL. */
  method EncodedValidUnichar(s: CStr) returns (r: int)
    ensures r == ValidLen(s)
  {
    var len := ExpectedLen(Look(s, 0));
    if len == 0 {
      return -EINVAL;
    }
    if len == 1 {
      return 1;
    }
    for i := 0 to len {
      if Look(s, i) < 0x80 {
        NotDecoded(s, len, i + 1, len);
        return -EINVAL;
      }
    }
    var unichar := ToUnichar(s, len);
    if EncodedLen(unichar) != len {
      return -EINVAL;
    }
    if !UnicodeValid(unichar) {
      return -EINVAL;
    }
    return len;
  }

  /** utf8_encoded_to_unichar() for a character of several bytes. */
  method ToUnichar(s: CStr, len: nat) returns (unichar: int)
    requires 2 <= len
    ensures unichar == Decoded(s, len, len)
  {
    unichar := FirstBits(Look(s, 0), len);
    for i := 1 to len
      invariant unichar >= 0 && unichar == Decoded(s, len, i)
    {
      if !IsContinuation(Look(s, i)) {
        NotDecoded(s, len, i + 1, len);
        return -EINVAL;
      }
      unichar := unichar * 64 + LowBits(Look(s, i));
    }
  }

  lemma {:induction false} NotDecoded(s: CStr, len: nat, i: nat, n: nat)
    requires 1 <= i <= n && Decoded(s, len, i) < 0
    ensures Decoded(s, len, n) == -22
    decreases n
  {
    if i < n {
      NotDecoded(s, len, i, n - 1);
    }
  }

  /** No bytes but continuation bytes decode, so looking at the highest bits beforehand changes nothing. */
  function ValidLen(s: CStr): int {
    var len := ExpectedLen(Look(s, 0));
    if len == 0 then -EINVAL
    else if len == 1 then 1
    else
      var u := Decoded(s, len, len);
      if EncodedLen(u) != len || !UnicodeValid(u) then -EINVAL else len
  }

  // ---- section 3 of RFC 3629 ----

  /** A character as UTF-8 writes it. */
  function Encode(u: nat): (e: CStr)
    requires 0 < u < 0x110000
    ensures |e| == EncodedLen(u)
  {
    if u < 0x80 then [u]
    else if u < 0x800 then [0xc0 + u / 64, 0x80 + u % 64]
    else if u < 0x10000 then [0xe0 + u / 4096, 0x80 + u / 64 % 64, 0x80 + u % 64]
    else [0xf0 + u / 262144, 0x80 + u / 4096 % 64, 0x80 + u / 64 % 64, 0x80 + u % 64]
  }

  /** s begins with a character of several bytes that is no surrogate and no noncharacter. */
  ghost predicate BeginsWith(s: CStr, u: nat) {
    && 0x80 <= u < 0x110000 && !(0xD800 <= u <= 0xDFFF) && !(0xFDD0 <= u <= 0xFDEF)
    && u % 0x10000 != 0xFFFE && u % 0x10000 != 0xFFFF
    && IsPrefix(Encode(u), s)
  }

  /** The bytes of a character are its digits to base 64, and digits make up the character. */
  lemma Digits(a: nat, b: nat, c: nat, d: nat)
    requires b < 64 && c < 64 && d < 64
    ensures (a * 64 + b) / 64 == a && (a * 64 + b) % 64 == b
    ensures ((a * 64 + b) * 64 + c) / 4096 == a && ((a * 64 + b) * 64 + c) / 64 % 64 == b
    ensures ((a * 64 + b) * 64 + c) % 64 == c
    ensures (((a * 64 + b) * 64 + c) * 64 + d) / 262144 == a
    ensures (((a * 64 + b) * 64 + c) * 64 + d) / 4096 % 64 == b && (((a * 64 + b) * 64 + c) * 64 + d) / 64 % 64 == c
    ensures (((a * 64 + b) * 64 + c) * 64 + d) % 64 == d
  {
  }

  lemma Continued(s: CStr, len: nat, n: nat)
    requires 1 < n && Decoded(s, len, n) >= 0
    ensures n <= |s| && IsContinuation(s[n - 1]) && s[n - 1] == 0x80 + LowBits(s[n - 1])
    ensures Decoded(s, len, n - 1) >= 0 && Decoded(s, len, n) == Decoded(s, len, n - 1) * 64 + LowBits(s[n - 1])
  {
  }

  lemma Accepted2(s: CStr)
    requires ExpectedLen(Look(s, 0)) == 2 && Decoded(s, 2, 2) >= 0x80
    ensures |s| >= 2 && Decoded(s, 2, 2) < 0x800 && s[..2] == Encode(Decoded(s, 2, 2))
  {
    Continued(s, 2, 2);
    Digits(FirstBits(s[0], 2), LowBits(s[1]), 0, 0);
    assert s[..2] == [s[0], s[1]];
  }

  /** The encodings that the bits of three and of four bytes stand for. */
  lemma Encode3(a: nat, b: nat, c: nat)
    requires a < 16 && b < 64 && c < 64 && (a * 64 + b) * 64 + c >= 0x800
    ensures Encode((a * 64 + b) * 64 + c) == [0xe0 + a, 0x80 + b, 0x80 + c]
  {
    Digits(a, b, c, 0);
  }

  lemma Encode4(a: nat, b: nat, c: nat, d: nat)
    requires a < 8 && b < 64 && c < 64 && d < 64 && 0x10000 <= ((a * 64 + b) * 64 + c) * 64 + d < 0x110000
    ensures Encode(((a * 64 + b) * 64 + c) * 64 + d) == [0xf0 + a, 0x80 + b, 0x80 + c, 0x80 + d]
  {
    Digits(a, b, c, d);
  }

  lemma Bytes3(s: CStr) returns (a: nat, b: nat, c: nat)
    requires ExpectedLen(Look(s, 0)) == 3 && Decoded(s, 3, 3) >= 0
    ensures a < 16 && b < 64 && c < 64 && Decoded(s, 3, 3) == (a * 64 + b) * 64 + c
    ensures |s| >= 3 && s[..3] == [0xe0 + a, 0x80 + b, 0x80 + c]
  {
    Continued(s, 3, 3);
    Continued(s, 3, 2);
    a, b, c := FirstBits(s[0], 3), LowBits(s[1]), LowBits(s[2]);
  }

  lemma Bytes4(s: CStr) returns (a: nat, b: nat, c: nat, d: nat)
    requires ExpectedLen(Look(s, 0)) == 4 && Decoded(s, 4, 4) >= 0
    ensures a < 8 && b < 64 && c < 64 && d < 64 && Decoded(s, 4, 4) == ((a * 64 + b) * 64 + c) * 64 + d
    ensures |s| >= 4 && s[..4] == [0xf0 + a, 0x80 + b, 0x80 + c, 0x80 + d]
  {
    Continued(s, 4, 4);
    Continued(s, 4, 3);
    Continued(s, 4, 2);
    a, b, c, d := FirstBits(s[0], 4), LowBits(s[1]), LowBits(s[2]), LowBits(s[3]);
  }

  lemma Accepted3(s: CStr)
    requires ExpectedLen(Look(s, 0)) == 3 && Decoded(s, 3, 3) >= 0x800
    ensures |s| >= 3 && Decoded(s, 3, 3) < 0x10000 && s[..3] == Encode(Decoded(s, 3, 3))
  {
    var a, b, c := Bytes3(s);
    Encode3(a, b, c);
  }

  lemma Accepted4(s: CStr)
    requires ExpectedLen(Look(s, 0)) == 4 && 0x10000 <= Decoded(s, 4, 4) < 0x110000
    ensures |s| >= 4 && s[..4] == Encode(Decoded(s, 4, 4))
  {
    var a, b, c, d := Bytes4(s);
    Encode4(a, b, c, d);
  }

  /** What is accepted with several bytes is the encoding of a valid character... */
  lemma AcceptedIsEncoding(s: CStr)
    requires ValidLen(s) > 1
    ensures ValidLen(s) <= |s| && BeginsWith(s, Decoded(s, ValidLen(s), ValidLen(s)))
  {
    var n := ValidLen(s);
    if n == 2 {
      Accepted2(s);
    } else if n == 3 {
      Accepted3(s);
    } else if n == 4 {
      Accepted4(s);
    }
  }

  /** The first n bytes, digit by digit. */
  lemma Step(s: CStr, len: nat, n: nat, u: nat)
    requires 1 <= n < |s| && Decoded(s, len, n) == u / 64 && s[n] == 0x80 + u % 64
    ensures Decoded(s, len, n + 1) == u
  {
  }

  lemma EncodedBytes(s: CStr, u: nat)
    requires BeginsWith(s, u)
    ensures var n := EncodedLen(u);
            && 2 <= n <= 4 && n <= |s|
            && ExpectedLen(s[0]) == n && (forall k :: 0 <= k < n ==> s[k] >= 0x80)
            && s[n - 1] == 0x80 + u % 64
            && (if n == 2 then FirstBits(s[0], 2) == u / 64
                else if n == 3 then FirstBits(s[0], 3) == u / 4096 && s[1] == 0x80 + u / 64 % 64
                else FirstBits(s[0], 4) == u / 262144 && s[1] == 0x80 + u / 4096 % 64 && s[2] == 0x80 + u / 64 % 64)
  {
    var e, n := Encode(u), EncodedLen(u);
    forall k | 0 <= k < n
      ensures s[k] == e[k]
    {
      assert Head(s, n)[k] == e[k];
    }
  }

  /** ...and every encoding of a valid character is accepted, at its length. */
  lemma EncodingIsAccepted(s: CStr, u: nat)
    requires BeginsWith(s, u)
    ensures ValidLen(s) == EncodedLen(u) > 1 && Decoded(s, EncodedLen(u), EncodedLen(u)) == u
  {
    var n := EncodedLen(u);
    EncodedBytes(s, u);
    assert Decoded(s, n, 1) == FirstBits(s[0], n);
    if n == 4 {
      Step(s, n, 1, u / 4096);
      Step(s, n, 2, u / 64);
    } else if n == 3 {
      Step(s, n, 1, u / 64);
    }
    Step(s, n, n - 1, u);
  }
}
