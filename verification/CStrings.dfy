/**
  C strings and the byte buffers that hold them.  A string never contains the
  NUL byte; a buffer holds it at an offset when the bytes there are the string
  followed by NUL.
  */
module CStrings {
  type Byte = b: int | 0 <= b < 256
  type Char = c: int | 0 < c < 256 witness 1
  type CStr = seq<Char>

  const NUL: Byte := 0

  const SIGN: Byte := 128

  /** An unsigned byte compared with a char: where char is signed, one above 127 is negative and differs. */
  predicate SameChar(c: Byte, d: Byte, signed: bool) {
    c == d && (signed ==> d < SIGN)
  }

  predicate NoSign(s: CStr, i: nat, j: nat)
    requires j <= |s|
  {
    forall q :: i <= q < j ==> s[q] < 128
  }

  /** Reading s[i] in C: the terminating NUL is part of the array. */
  function At(s: CStr, i: nat): Byte
    requires i <= |s|
  {
    if i < |s| then s[i] else NUL
  }

  /** The string a C reader finds at an offset: the bytes up to the next NUL. */
  function StrAt(buf: seq<Byte>, off: nat): (s: CStr)
    decreases |buf| - off
  {
    if off >= |buf| || buf[off] == NUL then [] else [buf[off]] + StrAt(buf, off + 1)
  }

  /** The buffer has s at the offset, and its NUL. */
  predicate HoldsAt(buf: seq<Byte>, off: int, s: CStr) {
    0 <= off && off + |s| < |buf| && StrAt(buf, off) == s
  }

  predicate IsPrefix(s: CStr, t: CStr) {
    |s| <= |t| && Head(t, |s|) == s
  }

  function Cons(c: Char, s: CStr): CStr {
    [c] + s
  }

  /** The last n characters. */
  function Tail(s: CStr, n: nat): (t: CStr)
    requires n <= |s|
    ensures |t| == n
  {
    s[|s| - n..]
  }

  predicate IsSuffix(s: CStr, t: CStr) {
    |s| <= |t| && Tail(t, |s|) == s
  }

  lemma TailTail(s: CStr, n: nat, m: nat)
    requires m <= n <= |s|
    ensures Tail(Tail(s, n), m) == Tail(s, m)
  {
  }

  function Snoc(s: CStr, c: Char): CStr {
    s + [c]
  }

  /** The first n characters. */
  function Head(s: CStr, n: nat): (t: CStr)
    requires n <= |s|
    ensures |t| == n
  {
    s[..n]
  }

  lemma HeadHead(s: CStr, n: nat, m: nat)
    requires m <= n <= |s|
    ensures Head(Head(s, n), m) == Head(s, m)
  {
  }

  lemma HeadIndex(s: CStr, n: nat, i: nat)
    requires i < n <= |s|
    ensures Head(s, n)[i] == s[i]
  {
  }

  lemma HeadStep(s: CStr, n: nat)
    requires n < |s|
    ensures Head(s, n + 1) == Snoc(Head(s, n), s[n])
  {
  }

  lemma PrefixTransitive(p: CStr, q: CStr, s: CStr)
    requires IsPrefix(p, q) && IsPrefix(q, s)
    ensures IsPrefix(p, s)
  {
    HeadHead(s, |q|, |p|);
  }

  /** Of two heads of one string the shorter is a head of the longer. */
  lemma PrefixesNest(p: CStr, q: CStr, s: CStr)
    requires IsPrefix(p, s) && IsPrefix(q, s) && |p| <= |q|
    ensures IsPrefix(p, q)
  {
    HeadHead(s, |q|, |p|);
  }

  lemma PrefixOfSum(p: CStr, q: CStr)
    ensures IsPrefix(p, p + q)
  {
  }

  /** Of two tails of one string the shorter is a tail of the longer. */
  lemma SuffixesNest(p: CStr, q: CStr, s: CStr)
    requires IsSuffix(p, s) && IsSuffix(q, s) && |p| <= |q|
    ensures IsSuffix(p, q)
  {
    TailTail(s, |q|, |p|);
  }

  lemma TailStep(s: CStr, n: nat)
    requires n < |s|
    ensures Tail(s, n + 1) == Cons(s[|s| - 1 - n], Tail(s, n))
  {
  }

  lemma ConsInjective(c: Char, s: CStr, d: Char, t: CStr)
    ensures Cons(c, s) == Cons(d, t) <==> c == d && s == t
    ensures Cons(c, s) != s && Cons(c, s) != []
  {
    assert Cons(c, s)[1..] == s && Cons(d, t)[1..] == t;
    assert Cons(c, s)[0] == c && Cons(d, t)[0] == d;
  }

  /** Byte by byte, the buffer at the offset is the string followed by NUL. */
  lemma {:induction false} HoldsBytes(buf: seq<Byte>, off: int, s: CStr)
    requires 0 <= off && off + |s| < |buf|
    ensures HoldsAt(buf, off, s) <==> buf[off..off + |s|] == s && buf[off + |s|] == NUL
    decreases |s|
  {
    if s != [] {
      HoldsBytes(buf, off + 1, s[1..]);
      assert s == [s[0]] + s[1..];
      if StrAt(buf, off) == s {
        assert buf[off..off + |s|] == [buf[off]] + buf[off + 1..off + |s|];
      }
      if buf[off..off + |s|] == s {
        assert buf[off + 1..off + |s|] == buf[off..off + |s|][1..];
        assert buf[off] == buf[off..off + |s|][0];
      }
    } else {
      assert buf[off..off] == [];
    }
  }

  lemma HoldsTail(buf: seq<Byte>, off: int, s: CStr, k: nat)
    requires HoldsAt(buf, off, s) && k <= |s|
    ensures HoldsAt(buf, off + k, s[k..])
  {
    HoldsBytes(buf, off, s);
    HoldsBytes(buf, off + k, s[k..]);
    assert buf[off + k..off + |s|] == buf[off..off + |s|][k..];
  }

  /** memcmp() with the end of a held string tests for a tail of it, and a tail is held too. */
  lemma TailBytes(buf: seq<Byte>, off: int, v: CStr, s: CStr)
    requires HoldsAt(buf, off, v) && |s| <= |v|
    ensures buf[off + |v| - |s|..off + |v|] == s <==> IsSuffix(s, v)
    ensures HoldsAt(buf, off + |v| - |s|, Tail(v, |s|))
  {
    HoldsTail(buf, off, v, |v| - |s|);
    HoldsBytes(buf, off + |v| - |s|, Tail(v, |s|));
  }

  /** A string appended with its NUL is held where the buffer ended... */
  lemma HoldsAppended(buf: seq<Byte>, s: CStr)
    ensures HoldsAt(buf + s + [NUL], |buf|, s)
  {
    HoldsBytes(buf + s + [NUL], |buf|, s);
  }

  /** ...and what a buffer holds it keeps as it grows. */
  lemma HoldsGrown(buf: seq<Byte>, off: int, s: CStr, more: seq<Byte>)
    requires HoldsAt(buf, off, s)
    ensures HoldsAt(buf + more, off, s)
  {
    HoldsBytes(buf, off, s);
    HoldsBytes(buf + more, off, s);
    assert (buf + more)[off..off + |s|] == buf[off..off + |s|];
  }

  // strcmp() order: bytes compared as unsigned values, NUL before everything.

  predicate Less(s: CStr, t: CStr) {
    if t == [] then false
    else if s == [] then true
    else s[0] < t[0] || (s[0] == t[0] && Less(s[1..], t[1..]))
  }

  lemma {:induction false} LessTotal(s: CStr, t: CStr)
    ensures s == t || Less(s, t) || Less(t, s)
    decreases |s|
  {
    if s != [] && t != [] && s[0] == t[0] {
      LessTotal(s[1..], t[1..]);
      if s[1..] == t[1..] {
        assert s == [s[0]] + s[1..];
        assert t == [t[0]] + t[1..];
      }
    }
  }

  lemma {:induction false} LessIrreflexive(s: CStr)
    ensures !Less(s, s)
    decreases |s|
  {
    if s != [] {
      LessIrreflexive(s[1..]);
    }
  }

  lemma {:induction false} LessTransitive(s: CStr, t: CStr, u: CStr)
    requires Less(s, t) && Less(t, u)
    ensures Less(s, u)
    decreases |s|
  {
    if s != [] && s[0] == t[0] && t[0] == u[0] {
      LessTransitive(s[1..], t[1..], u[1..]);
    }
  }
}
