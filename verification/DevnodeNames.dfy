/**
  encode_devnode_name() (shared/device-nodes.c): names that are safe as device nodes,
  and can be read back by cunescape().
  */
module DevnodeNames {
  import opened CStrings
  import opened Escaping
  import opened Utf8

  /** whitelisted_char_for_devnode() */
  predicate Whitelisted(c: Char, white: set<Char>) {
    || 48 <= c <= 57 || 65 <= c <= 90 || 97 <= c <= 122
    || c in {35, 43, 45, 46, 58, 61, 64, 95}
    || c in white
  }

  /** What is written for the beginning of a string, and how much of it that covers. */
  datatype Piece = Piece(out: CStr, used: nat)

  function FirstPiece(s: CStr): (p: Piece)
    requires s != []
    ensures 1 <= p.used && 1 <= |p.out| <= 4 * p.used
  {
    var n := ValidLen(s);
    if n > 1 && n <= |s| then Piece(s[..n], n)
    else if s[0] == BACKSLASH || !Whitelisted(s[0], {}) then Piece(HexEscaped(s[0]), 1)
    else Piece([s[0]], 1)
  }

  function Encoded(s: CStr): (e: CStr)
    ensures |e| <= 4 * |s|
    decreases |s|
  {
    if s == [] then []
    else
      var p := FirstPiece(s);
      if p.used <= |s| then p.out + Encoded(s[p.used..]) else []
  }

  lemma PieceFits(s: CStr)
    requires s != []
    ensures FirstPiece(s).used <= |s|
  {
  }

  /** One character, or one escape, and the rest. */
  lemma EncodedStep(s: CStr, p: Piece, rest: CStr)
    requires s != [] && p == FirstPiece(s) && p.used <= |s| && rest == s[p.used..]
    ensures Encoded(s) == p.out + Encoded(rest)
  {
  }

  // ---- the inverse ----

  /** Without backslashes a beginning is read as it is. */
  lemma {:induction false} UnescapePlain(a: CStr, rest: CStr)
    requires forall k :: 0 <= k < |a| ==> a[k] != BACKSLASH
    ensures Unescape(a + rest) == a + Unescape(rest)
    decreases |a|
  {
    if a == [] {
      assert a + rest == rest;
    } else {
      UnescapeOn([a[0]], [a[0]], a[1..] + rest);
      UnescapePlain(a[1..], rest);
      assert [a[0]] + (a[1..] + rest) == a + rest;
      assert [a[0]] + (a[1..] + Unescape(rest)) == a + Unescape(rest);
    }
  }

  /** Bytes that decode, behind the first one, have their highest bit set. */
  lemma {:induction false} DecodedHigh(s: CStr, len: nat, n: nat)
    requires 1 <= n && Decoded(s, len, n) >= 0
    ensures forall k :: 1 <= k < n ==> k < |s| && s[k] >= 0x80
    decreases n
  {
    if n > 1 {
      DecodedHigh(s, len, n - 1);
    }
  }

  /** A validated character has no backslash in it: its bytes are all above 127. */
  lemma NoBackslash(s: CStr)
    requires ValidLen(s) > 1
    ensures ValidLen(s) <= |s| && forall k :: 0 <= k < ValidLen(s) ==> s[k] >= 0x80
  {
    DecodedHigh(s, ValidLen(s), ValidLen(s));
  }

  lemma PieceRead(s: CStr, rest: CStr)
    requires s != []
    ensures FirstPiece(s).used <= |s|
    ensures Unescape(FirstPiece(s).out + rest) == s[..FirstPiece(s).used] + Unescape(rest)
  {
    var p, n := FirstPiece(s), ValidLen(s);
    if n > 1 && n <= |s| {
      NoBackslash(s);
      UnescapePlain(s[..n], rest);
    } else if p.out == HexEscaped(s[0]) {
      HexEscapedRead(s[0], rest);
      UnescapeOn(HexEscaped(s[0]), [s[0]], rest);
    } else {
      UnescapePlain([s[0]], rest);
    }
    assert n <= 1 || n > |s| ==> s[..1] == [s[0]];
  }

  /** Reading the first piece back leaves what is to be read for the rest of the string. */
  lemma StepBack(s: CStr) returns (n: nat)
    requires s != []
    ensures 1 <= n <= |s|
    ensures Unescape(Encoded(s)) == s[..n] + Unescape(Encoded(s[n..]))
  {
    n := FirstPiece(s).used;
    PieceFits(s);
    EncodedStep(s, FirstPiece(s), s[n..]);
    PieceRead(s, Encoded(s[n..]));
  }

  lemma TwoParts(s: CStr, n: nat)
    requires n <= |s|
    ensures s[..n] + s[n..] == s
  {
  }

  /** cunescape() undoes encode_devnode_name(). */
  lemma {:induction false} DevnodeRoundTrip(s: CStr)
    ensures Unescape(Encoded(s)) == s
    decreases |s|
  {
    if s != [] {
      var n := StepBack(s);
      DevnodeRoundTrip(s[n..]);
      TwoParts(s, n);
    }
  }

  /** A digit, a letter, or one of #+-.:=@_ */
  predicate NameByte(c: Char) {
    48 <= c <= 57 || 65 <= c <= 90 || 97 <= c <= 122 || c in {35, 43, 45, 46, 58, 61, 64, 95}
  }

  /** Of what is written every byte is one of these, a backslash, or above 127. */
  predicate SafeByte(c: Char) {
    NameByte(c) || c == 92 || c >= 128
  }

  lemma {:induction false} EncodedIsSafe(s: CStr)
    ensures forall k :: 0 <= k < |Encoded(s)| ==> SafeByte(Encoded(s)[k])
    decreases |s|
  {
    if s != [] {
      var p, n := FirstPiece(s), ValidLen(s);
      PieceFits(s);
      if n > 1 && n <= |s| {
        NoBackslash(s);
      }
      EncodedIsSafe(s[p.used..]);
    }
  }

  /** An ASCII byte is written as it is, or as a backslash, an "x" and two digits. */
  lemma AsciiPiece(s: CStr)
    requires s != [] && s[0] < 128
    ensures FirstPiece(s).used == 1
    ensures var c: int := s[0];
            FirstPiece(s).out == if NameByte(c) then [c] else [92, 120, LowDigit(c / 16), LowDigit(c % 16)]
  {
    if ValidLen(s) > 1 {
      NoBackslash(s);
      assert false;
    }
  }

  /** A character of several bytes is written as it is; a byte above 127 that begins none becomes an escape. */
  lemma HighPiece(s: CStr)
    requires s != [] && s[0] >= 128
    ensures forall u :: BeginsWith(s, u) ==> FirstPiece(s) == Piece(Encode(u), |Encode(u)|)
    ensures var c: int := s[0];
            (forall u :: !BeginsWith(s, u)) ==>
              FirstPiece(s) == Piece([92, 120, LowDigit(c / 16), LowDigit(c % 16)], 1)
  {
    forall u | BeginsWith(s, u)
      ensures FirstPiece(s) == Piece(Encode(u), |Encode(u)|)
    {
      EncodingIsAccepted(s, u);
      AcceptedIsEncoding(s);
      assert Head(s, |Encode(u)|) == Encode(u);
    }
    if ValidLen(s) > 1 {
      AcceptedIsEncoding(s);
    }
  }

  /** A name of ASCII bytes is left as it is exactly if these are all letters, digits and the like. */
  lemma {:induction false} LeftAsItIs(s: CStr)
    requires forall k :: 0 <= k < |s| ==> s[k] < 128
    ensures Encoded(s) == s <==> forall k :: 0 <= k < |s| ==> NameByte(s[k])
    decreases |s|
  {
    if s != [] {
      AsciiPiece(s);
      PieceFits(s);
      EncodedStep(s, FirstPiece(s), s[1..]);
      LeftAsItIs(s[1..]);
      assert s == [s[0]] + s[1..];
      if NameByte(s[0]) {
        SameBehind(s[0], Encoded(s[1..]), s[1..]);
      } else {
        assert Encoded(s)[0] == 92;
        OtherBackslash(s);
      }
    }
  }

  lemma SameBehind(c: Char, s: CStr, t: CStr)
    ensures [c] + s == [c] + t <==> s == t
  {
    assert ([c] + s)[1..] == s && ([c] + t)[1..] == t;
  }

  /** A backslash is no exception: what is written for it goes on otherwise. */
  lemma OtherBackslash(s: CStr)
    requires s != [] && s[0] < 128 && !NameByte(s[0]) && Encoded(s) == FirstPiece(s).out + Encoded(s[1..])
    ensures Encoded(s) != s
  {
    AsciiPiece(s);
    EncodedGrows(s[1..]);
  }

  /** Encoding makes nothing shorter. */
  lemma {:induction false} EncodedGrows(s: CStr)
    ensures |Encoded(s)| >= |s|
    decreases |s|
  {
    if s != [] {
      PieceFits(s);
      EncodedStep(s, FirstPiece(s), s[FirstPiece(s).used..]);
      EncodedGrows(s[FirstPiece(s).used..]);
    }
  }

  /** After i characters: what is written, followed by what the rest of the string becomes, is the result. */
  ghost predicate Underway(str: CStr, i: nat, done: seq<Byte>, all: seq<Byte>) {
    i <= |str| && done + Encoded(str[i..]) == all
  }

  /** One turn of the loop. */
  method EncodeOne(str: CStr, i: nat, ghost done: seq<Byte>, ghost all: seq<Byte>) returns (out: CStr, i': nat)
    requires i < |str| && Underway(str, i, done, all)
    ensures i < i' && |done| + |out| <= |all| && Underway(str, i', done + out, all)
  {
    PieceFits(str[i..]);
    var p := FirstPiece(str[i..]);
    out, i' := p.out, i + p.used;
    EncodedStep(str[i..], p, str[i'..]);
    Regroup(done, out, Encoded(str[i'..]), all);
  }

  lemma Finished(str: CStr, i: nat, done: seq<Byte>, all: seq<Byte>)
    requires Underway(str, i, done, all) && i == |str|
    ensures done == all
  {
    assert str[i..] == [];
  }

  /** encode_devnode_name(): -EINVAL when the buffer is too small, which 4n + 1 bytes never are. */
  method EncodeDevnodeName(str: CStr, enc: array<Byte>) returns (err: int)
    modifies enc
    ensures err == if |Encoded(str)| < enc.Length then 0 else -22
    ensures err == 0 ==> enc[..|Encoded(str)|] == Encoded(str) && enc[|Encoded(str)|] == NUL
    ensures enc.Length >= 4 * |str| + 1 ==> err == 0
  {
    var i: nat, j: nat := 0, 0;
    ghost var done, all := [], Encoded(str);
    assert str[0..] == str;
    while i < |str|
      invariant Underway(str, i, done, all) && j <= enc.Length && enc[..j] == done
      decreases |str| - i
    {
      var out, next := EncodeOne(str, i, done, all);
      if enc.Length - j < |out| {
        return -EINVAL;
      }
      j := Emit(enc, j, out);
      done := done + out;
      i := next;
    }
    Finished(str, i, done, all);
    if enc.Length - j < 1 {
      return -EINVAL;
    }
    enc[j] := NUL;
    return 0;
  }
}
