/**
  Escaping and its inverse (shared/util.c): cescape() writes octal and one-letter
  escapes, xescape() hexadecimal ones, and cunescape() reads them all.
  */
module Escaping {
  import opened CStrings

  const BACKSLASH: Char := 92
  const LETTER_X: Char := 120
  const EINVAL: int := 22

  // ---- digits ----

  /** hexchar() */
  function HexChar(x: nat): Char {
    if x % 16 < 10 then 48 + x % 16 else 97 + (x % 16 - 10)
  }

  /** unhexchar() */
  function UnhexChar(c: Byte): int {
    if 48 <= c <= 57 then c - 48
    else if 97 <= c <= 102 then c - 97 + 10
    else if 65 <= c <= 70 then c - 65 + 10
    else -EINVAL
  }

  /** octchar() */
  function OctChar(x: nat): Char {
    48 + x % 8
  }

  /** unoctchar() */
  function UnoctChar(c: Byte): int {
    if 48 <= c <= 55 then c - 48 else -EINVAL
  }

  // ---- printers ----

  /** The letter that stands for the character behind a backslash, NUL if there is none. */
  function Letter(c: Char): Byte {
    if c == 7 then 97
    else if c == 8 then 98
    else if c == 12 then 102
    else if c == 10 then 110
    else if c == 13 then 114
    else if c == 9 then 116
    else if c == 11 then 118
    else if c == BACKSLASH || c == 34 || c == 39 then c
    else NUL
  }

  /** Outside of printable ASCII.  As a signed char a byte above 127 is below a space. */
  predicate Unprintable(c: Char) {
    c < 32 || c >= 127
  }

  /** One character as cescape() prints it. */
  function CEscaped(c: Char): (e: CStr)
    ensures 1 <= |e| <= 4
  {
    if Letter(c) != NUL then [BACKSLASH, Letter(c)]
    else if Unprintable(c) then [BACKSLASH, OctChar(c / 64), OctChar(c / 8), OctChar(c)]
    else [c]
  }

  function HexEscaped(c: Char): (e: CStr)
    ensures |e| == 4
  {
    [BACKSLASH, LETTER_X, HexChar(c / 16), HexChar(c)]
  }

  /** One character as xescape() prints it. */
  function XEscaped(c: Char, bad: set<Char>): (e: CStr)
    ensures 1 <= |e| <= 4
  {
    if Unprintable(c) || c == BACKSLASH || c in bad then HexEscaped(c) else [c]
  }

  function CEscape(s: CStr): (e: CStr)
    ensures |e| <= 4 * |s|
  {
    if s == [] then [] else CEscaped(s[0]) + CEscape(s[1..])
  }

  function XEscape(s: CStr, bad: set<Char>): (e: CStr)
    ensures |e| <= 4 * |s|
  {
    if s == [] then [] else XEscaped(s[0], bad) + XEscape(s[1..], bad)
  }

  // ---- the parser ----

  /** What one step of cunescape() writes, and how much it reads; the NUL behind the string can be looked at. */
  datatype Step = Step(out: seq<Byte>, used: nat)

  function LetterValue(c: Char): Byte {
    if c == 97 then 7
    else if c == 98 then 8
    else if c == 102 then 12
    else if c == 110 then 10
    else if c == 114 then 13
    else if c == 116 then 9
    else if c == 118 then 11
    else if c == BACKSLASH || c == 34 || c == 39 then c
    else if c == 115 then 32
    else NUL
  }

  function ByteAt(t: CStr, i: nat): Byte {
    if i < |t| then t[i] else NUL
  }

  function UnescapeStep(t: CStr): (step: Step)
    requires t != []
    ensures 1 <= step.used <= |t| && |step.out| <= step.used
  {
    if t[0] != BACKSLASH then Step([t[0]], 1)
    else if |t| == 1 then Step([BACKSLASH], 1)
    else if LetterValue(t[1]) != NUL then Step([LetterValue(t[1])], 2)
    else if t[1] == LETTER_X then
      var a, b := UnhexChar(ByteAt(t, 2)), UnhexChar(ByteAt(t, 3));
      if a < 0 || b < 0 then Step([BACKSLASH, LETTER_X], 2) else Step([a * 16 + b], 4)
    else if UnoctChar(t[1]) >= 0 then
      var a, b, c := UnoctChar(t[1]), UnoctChar(ByteAt(t, 2)), UnoctChar(ByteAt(t, 3));
      if b < 0 || c < 0 then Step([BACKSLASH, t[1]], 2) else Step([(a * 64 + b * 8 + c) % 256], 4)
    else Step([BACKSLASH, t[1]], 2)
  }

  /** What is at a place of the string, of the NUL that ends it, and of the byte behind that. */
  function ReadAt(t: CStr, i: nat, behind: Byte): Byte {
    if i < |t| then t[i] else if i == |t| then NUL else behind
  }

  /** Digits are looked at without regard to the end of the string. */
  predicate LooksBehind(t: CStr) {
    |t| == 2 && t[0] == BACKSLASH && (t[1] == LETTER_X || UnoctChar(t[1]) >= 0)
  }

  /** The step as the loop takes it, with whatever is behind the NUL. */
  function StepBehind(t: CStr, behind: Byte): (step: Step)
    requires t != []
  {
    var c := ReadAt(t, 1, behind);
    if t[0] != BACKSLASH then Step([t[0]], 1)
    else if c == NUL then Step([BACKSLASH], 1)
    else if LetterValue(c) != NUL then Step([LetterValue(c)], 2)
    else
      var d, e := ReadAt(t, 2, behind), ReadAt(t, 3, behind);
      if c == LETTER_X then
        var a, b := UnhexChar(d), UnhexChar(e);
        if a < 0 || b < 0 then Step([BACKSLASH, LETTER_X], 2) else Step([a * 16 + b], 4)
      else if UnoctChar(c) >= 0 then
        var a, b, c := UnoctChar(c), UnoctChar(d), UnoctChar(e);
        if b < 0 || c < 0 then Step([BACKSLASH, t[1]], 2) else Step([(a * 64 + b * 8 + c) % 256], 4)
      else Step([BACKSLASH, c], 2)
  }

  /** It makes no difference what is there. */
  lemma BehindIsNothing(t: CStr, behind: Byte)
    requires t != []
    ensures StepBehind(t, behind) == UnescapeStep(t)
  {
  }

  /** How many steps look behind the NUL: one if the string ends with an escape that has no digit. */
  function Looks(t: CStr): (n: nat)
    ensures n <= 1
  {
    if t == [] then 0
    else
      var rest := t[UnescapeStep(t).used..];
      if LooksBehind(t) then 1 else Looks(rest)
  }

  function Unescape(t: CStr): (s: seq<Byte>)
    ensures |s| <= |t|
  {
    if t == [] then []
    else
      var step := UnescapeStep(t);
      step.out + Unescape(t[step.used..])
  }

  // ---- round trips ----

  lemma OctRoundTrip(c: Char)
    ensures UnoctChar(OctChar(c / 64)) == c / 64
    ensures UnoctChar(OctChar(c / 8)) == c / 8 % 8 && UnoctChar(OctChar(c)) == c % 8
    ensures c / 64 * 64 + c / 8 % 8 * 8 + c % 8 == c
  {
  }

  lemma HexRoundTrip(c: Char)
    ensures UnhexChar(HexChar(c / 16)) == c / 16 && UnhexChar(HexChar(c)) == c % 16
    ensures c / 16 * 16 + c % 16 == c
  {
  }

  /** A printed character is read as that character, whatever follows. */
  lemma CEscapedRead(c: Char, rest: CStr)
    ensures UnescapeStep(CEscaped(c) + rest) == Step([c], |CEscaped(c)|)
  {
    OctRoundTrip(c);
  }

  lemma HexEscapedRead(c: Char, rest: CStr)
    ensures UnescapeStep(HexEscaped(c) + rest) == Step([c], 4)
  {
    HexRoundTrip(c);
  }

  /** Reading on behind what one step has read. */
  lemma UnescapeOn(e: CStr, out: seq<Byte>, rest: CStr)
    requires e != [] && UnescapeStep(e + rest) == Step(out, |e|)
    ensures Unescape(e + rest) == out + Unescape(rest)
  {
    assert (e + rest)[|e|..] == rest;
  }

  /** cunescape() undoes cescape(). */
  lemma {:induction false} CRoundTrip(s: CStr)
    ensures Unescape(CEscape(s)) == s
    decreases |s|
  {
    if s != [] {
      CEscapedRead(s[0], CEscape(s[1..]));
      UnescapeOn(CEscaped(s[0]), [s[0]], CEscape(s[1..]));
      CRoundTrip(s[1..]);
    }
  }

  /** cunescape() undoes xescape(), whatever is to be escaped. */
  lemma {:induction false} XRoundTrip(s: CStr, bad: set<Char>)
    ensures Unescape(XEscape(s, bad)) == s
    decreases |s|
  {
    if s != [] {
      var rest := XEscape(s[1..], bad);
      if XEscaped(s[0], bad) == HexEscaped(s[0]) {
        HexEscapedRead(s[0], rest);
      }
      UnescapeOn(XEscaped(s[0], bad), [s[0]], rest);
      XRoundTrip(s[1..], bad);
    }
  }

  // ---- what is escaped and how, byte by byte ----

  /** A digit as hexadecimal escapes are written with, 0 to 9 and a to f. */
  function LowDigit(x: nat): Char
    requires x < 16
  {
    if x < 10 then 48 + x else 87 + x
  }

  /** The same with A to F. */
  function HighDigit(x: nat): Char
    requires x < 16
  {
    if x < 10 then 48 + x else 55 + x
  }

  /** From a space to a tilde, without quotes and the backslash. */
  predicate Innocent(c: Char) {
    32 <= c <= 126 && c != 34 && c != 39 && c != 92
  }

  /** Seven control characters, quotes and the backslash have letters of their own, the others are written in octal. */
  lemma CEscapedIs(c: Char)
    ensures CEscaped(c) ==
            if Innocent(c) then [c]
            else if c == 34 || c == 39 || c == 92 then [92, c]
            else if c == 7 then [92, 97]
            else if c == 8 then [92, 98]
            else if c == 9 then [92, 116]
            else if c == 10 then [92, 110]
            else if c == 11 then [92, 118]
            else if c == 12 then [92, 102]
            else if c == 13 then [92, 114]
            else [92, 48 + c / 64, 48 + c / 8 % 8, 48 + c % 8]
  {
  }

  lemma XEscapedIs(c: Char, bad: set<Char>)
    ensures XEscaped(c, bad) ==
            if 32 <= c <= 126 && c != 92 && c !in bad then [c] else [92, 120, LowDigit(c / 16), LowDigit(c % 16)]
  {
  }

  /** A string is left as it is by cescape() exactly if there is nothing to escape. */
  lemma {:induction false} CEscapeLeaves(s: CStr)
    ensures CEscape(s) == s <==> forall k :: 0 <= k < |s| ==> Innocent(s[k])
    ensures |CEscape(s)| >= |s|
    decreases |s|
  {
    if s != [] {
      CEscapedIs(s[0]);
      CEscapeLeaves(s[1..]);
      PiecesSame(s, CEscaped(s[0]), CEscape(s[1..]));
    }
  }

  lemma {:induction false} XEscapeLeaves(s: CStr, bad: set<Char>)
    ensures XEscape(s, bad) == s <==> forall k :: 0 <= k < |s| ==> 32 <= s[k] <= 126 && s[k] != 92 && s[k] !in bad
    ensures |XEscape(s, bad)| >= |s|
    decreases |s|
  {
    if s != [] {
      XEscapedIs(s[0], bad);
      XEscapeLeaves(s[1..], bad);
      PiecesSame(s, XEscaped(s[0], bad), XEscape(s[1..], bad));
    }
  }

  /** A beginning and the rest are the string exactly if both are the same. */
  lemma PiecesSame(s: CStr, e: CStr, rest: CStr)
    requires s != [] && |rest| >= |s[1..]| && (e == [s[0]] || |e| > 1)
    ensures e + rest == s <==> e == [s[0]] && rest == s[1..]
  {
    assert s == [s[0]] + s[1..];
    if e == [s[0]] {
      assert (e + rest)[1..] == rest;
    }
  }

  /** Whatever is written is printable ASCII. */
  lemma {:induction false} CEscapePrintable(s: CStr)
    ensures forall k :: 0 <= k < |CEscape(s)| ==> 32 <= CEscape(s)[k] <= 126
    decreases |s|
  {
    if s != [] {
      CEscapedIs(s[0]);
      CEscapePrintable(s[1..]);
    }
  }

  /** Hexadecimal digits are read in both cases; with anything else in place of one the escape is no escape. */
  lemma HexRead(v: Byte, rest: CStr)
    ensures UnescapeStep([92, 120, LowDigit(v / 16), LowDigit(v % 16)] + rest) == Step([v], 4)
    ensures UnescapeStep([92, 120, HighDigit(v / 16), HighDigit(v % 16)] + rest) == Step([v], 4)
  {
  }

  predicate IsHexDigit(c: Byte) {
    48 <= c <= 57 || 65 <= c <= 70 || 97 <= c <= 102
  }

  lemma NoHexRead(t: CStr)
    requires |t| >= 2 && t[0] == 92 && t[1] == 120
    requires |t| < 4 || !IsHexDigit(t[2]) || !IsHexDigit(t[3])
    ensures UnescapeStep(t) == Step([92, 120], 2)
  {
  }

  /** Three octal digits are read as a number of eight bits; with fewer the escape is no escape. */
  lemma OctRead(a: nat, b: nat, c: nat, rest: CStr)
    requires a < 8 && b < 8 && c < 8
    ensures UnescapeStep([92, 48 + a, 48 + b, 48 + c] + rest) == Step([(64 * a + 8 * b + c) % 256], 4)
  {
  }

  lemma NoOctRead(t: CStr)
    requires |t| >= 2 && t[0] == 92 && 48 <= t[1] <= 55
    requires |t| < 4 || !(48 <= t[2] <= 55) || !(48 <= t[3] <= 55)
    ensures UnescapeStep(t) == Step([92, t[1]], 2)
  {
  }

  /** One-letter escapes, "s" for a space among them; behind any other character the backslash is left as it is. */
  lemma LetterRead(c: Char, rest: CStr)
    requires c != 120 && !(48 <= c <= 55)
    ensures UnescapeStep([92, c] + rest) ==
            if c == 97 then Step([7], 2)
            else if c == 98 then Step([8], 2)
            else if c == 102 then Step([12], 2)
            else if c == 110 then Step([10], 2)
            else if c == 114 then Step([13], 2)
            else if c == 115 then Step([32], 2)
            else if c == 116 then Step([9], 2)
            else if c == 118 then Step([11], 2)
            else if c == 34 || c == 39 || c == 92 then Step([c], 2)
            else Step([92, c], 2)
  {
  }

  // ---- in place ----

  /** Append to what is written. */
  method Emit(r: array<Byte>, t: nat, e: seq<Byte>) returns (t': nat)
    requires t + |e| <= r.Length
    modifies r
    ensures t' == t + |e| && r[..t'] == old(r[..t]) + e
  {
    for k := 0 to |e|
      invariant r[..t + k] == old(r[..t]) + e[..k]
    {
      r[t + k] := e[k];
    }
    assert e[..|e|] == e;
    t' := t + |e|;
  }

  // What is written so far, followed by what the rest of the string becomes, is the result.

  lemma Regroup(done: seq<Byte>, out: seq<Byte>, rest: seq<Byte>, all: seq<Byte>)
    requires done + (out + rest) == all
    ensures (done + out) + rest == all
  {
  }

  lemma CEscapeNext(done: seq<Byte>, s: CStr, f: nat)
    requires f < |s| && done + CEscape(s[f..]) == CEscape(s)
    ensures (done + CEscaped(s[f])) + CEscape(s[f + 1..]) == CEscape(s)
  {
    assert s[f..][1..] == s[f + 1..];
    assert CEscape(s[f..]) == CEscaped(s[f]) + CEscape(s[f + 1..]);
    Regroup(done, CEscaped(s[f]), CEscape(s[f + 1..]), CEscape(s));
  }

  lemma XEscapeNext(done: seq<Byte>, s: CStr, bad: set<Char>, f: nat)
    requires f < |s| && done + XEscape(s[f..], bad) == XEscape(s, bad)
    ensures (done + XEscaped(s[f], bad)) + XEscape(s[f + 1..], bad) == XEscape(s, bad)
  {
    assert s[f..][1..] == s[f + 1..];
    assert XEscape(s[f..], bad) == XEscaped(s[f], bad) + XEscape(s[f + 1..], bad);
    Regroup(done, XEscaped(s[f], bad), XEscape(s[f + 1..], bad), XEscape(s, bad));
  }

  lemma UnescapeNext(done: seq<Byte>, s: CStr, f: nat, all: seq<Byte>)
    requires f < |s| && done + Unescape(s[f..]) == all
    ensures var step := UnescapeStep(s[f..]);
            && (done + step.out) + Unescape(s[f + step.used..]) == all
            && Looks(s[f..]) == (if LooksBehind(s[f..]) then 1 else 0) + Looks(s[f + step.used..])
  {
    var step := UnescapeStep(s[f..]);
    assert s[f..][step.used..] == s[f + step.used..];
    Regroup(done, step.out, Unescape(s[f + step.used..]), all);
  }

  /** cescape(): 4n + 1 bytes are enough. */
  method CEscapeString(s: CStr) returns (r: array<Byte>, t: nat)
    ensures fresh(r) && r.Length == 4 * |s| + 1 && t < r.Length
    ensures r[..t] == CEscape(s) && r[t] == NUL
  {
    r := new Byte[|s| * 4 + 1];
    t := 0;
    assert s[0..] == s;
    ghost var done: seq<Byte> := [];
    for f := 0 to |s|
      invariant t <= 4 * f && r.Length == |s| * 4 + 1
      invariant r[..t] == done && done + CEscape(s[f..]) == CEscape(s)
    {
      CEscapeNext(done, s, f);
      t := Emit(r, t, CEscaped(s[f]));
      done := done + CEscaped(s[f]);
    }
    assert s[|s|..] == [];
    r[t] := NUL;
  }

  /** xescape(): 4n + 1 bytes are enough. */
  method XEscapeString(s: CStr, bad: set<Char>) returns (r: array<Byte>, t: nat)
    ensures fresh(r) && r.Length == 4 * |s| + 1 && t < r.Length
    ensures r[..t] == XEscape(s, bad) && r[t] == NUL
  {
    r := new Byte[|s| * 4 + 1];
    t := 0;
    assert s[0..] == s;
    ghost var done: seq<Byte> := [];
    for f := 0 to |s|
      invariant t <= 4 * f && r.Length == |s| * 4 + 1
      invariant r[..t] == done && done + XEscape(s[f..], bad) == XEscape(s, bad)
    {
      XEscapeNext(done, s, bad, f);
      t := Emit(r, t, XEscaped(s[f], bad));
      done := done + XEscaped(s[f], bad);
    }
    assert s[|s|..] == [];
    r[t] := NUL;
  }

  /** After f characters: what is written and what is still to come is the result, and so it is with the looks. */
  ghost predicate Underway(s: CStr, f: nat, done: seq<Byte>, looked: nat, all: seq<Byte>, looks: nat) {
    f <= |s| && done + Unescape(s[f..]) == all && looked + Looks(s[f..]) == looks
  }

  /** One turn of the loop: what it writes, how far it goes, and whether it looked behind the NUL. */
  method UnescapeOne(s: CStr, f: nat, behind: Byte, ghost done: seq<Byte>, looked: nat, ghost all: seq<Byte>,
                     ghost looks: nat)
    returns (out: seq<Byte>, f': nat, looked': nat)
    requires f < |s| && Underway(s, f, done, looked, all, looks)
    ensures f < f' && |out| <= f' - f && Underway(s, f', done + out, looked', all, looks)
  {
    UnescapeNext(done, s, f, all);
    BehindIsNothing(s[f..], behind);
    var step := StepBehind(s[f..], behind);
    out, f' := step.out, f + step.used;
    // the digits of an escape are the second and the third byte behind the backslash
    var last := if s[f] == 92 && f + 1 < |s| && (s[f + 1] == 120 || 48 <= s[f + 1] <= 55) then f + 3 else f;
    looked' := looked + if last > |s| then 1 else 0;
  }

  /**
    cunescape_length_with_prefix() over a whole string: the output never is longer than
    the input.  The byte behind the NUL is looked at once if the string ends with an
    escape that has no digit, else never, and makes no difference.
    */
  method UnescapeString(s: CStr, behind: Byte, prefix: seq<Byte>) returns (r: array<Byte>, t: nat, looked: nat)
    ensures fresh(r) && r.Length == |prefix| + |s| + 1 && t < r.Length
    ensures r[..t] == prefix + Unescape(s) && r[t] == NUL
    ensures looked == Looks(s)
  {
    r := new Byte[|prefix| + |s| + 1];
    t := Emit(r, 0, prefix);
    var f := 0;
    looked := 0;
    ghost var done, all, looks := prefix, prefix + Unescape(s), Looks(s);
    assert s[0..] == s;
    while f < |s|
      invariant Underway(s, f, done, looked, all, looks)
      invariant t <= |prefix| + f && r.Length == |prefix| + |s| + 1 && r[..t] == done
      decreases |s| - f
    {
      var out;
      out, f, looked := UnescapeOne(s, f, behind, done, looked, all, looks);
      t := Emit(r, t, out);
      done := done + out;
    }
    NothingLeft(s, f, done, looked, all, looks);
    r[t] := NUL;
  }

  lemma NothingLeft(s: CStr, f: nat, done: seq<Byte>, looked: nat, all: seq<Byte>, looks: nat)
    requires Underway(s, f, done, looked, all, looks) && f == |s|
    ensures done == all && looked == looks
  {
    assert s[f..] == [];
  }
}
