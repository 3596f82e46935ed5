/**
  The traversal of the trie and the plain scan over all patterns find the same;
  and the order in which the traversal finds it decides between patterns that
  give the same key.
  */
module LookupSpec {
  import opened CStrings
  import opened ChildArrays
  import opened PatternTree

  type Fnmatch = (CStr, CStr) -> bool

  /** The pattern repeats k characters of the string; then it ends with it, or goes on with a special character. */
  predicate MatchesAt(pattern: CStr, s: CStr, k: nat, fnm: Fnmatch) {
    && k <= |pattern| && k <= |s|
    && pattern[..k] == s[..k]
    && if k == |pattern| then k == |s| else IsGlob(pattern[k]) && fnm(pattern[k..], s[k..])
  }

  lemma {:induction false} HeadLenFacts(pattern: CStr)
    ensures forall q :: 0 <= q < HeadLen(pattern) ==> !IsGlob(pattern[q])
    ensures HeadLen(pattern) < |pattern| ==> IsGlob(pattern[HeadLen(pattern)])
    decreases |pattern|
  {
    if pattern != [] && !IsGlob(pattern[0]) {
      HeadLenFacts(pattern[1..]);
      assert forall q :: 0 < q < |pattern| ==> pattern[q] == pattern[1..][q - 1];
    }
  }

  lemma HeadLenUnique(pattern: CStr, k: nat)
    requires k <= |pattern| && (k < |pattern| ==> IsGlob(pattern[k]))
    requires forall q :: 0 <= q < k ==> !IsGlob(pattern[q])
    ensures HeadLen(pattern) == k
  {
    HeadLenFacts(pattern);
  }

  lemma LiteralFacts(prefix: CStr, s: CStr, i: nat)
    requires i <= |s|
    ensures var p := Literal(prefix, s, i);
            && prefix[..p] == s[i..i + p]
            && (forall q :: 0 <= q < p ==> !IsGlob(prefix[q]))
            && (p < |prefix| ==> IsGlob(prefix[p]) || prefix[p] != At(s, i + p))
  {
    LiteralFromFacts(prefix, 0, s, i);
  }

  lemma {:induction false} LiteralFromFacts(prefix: CStr, p: nat, s: CStr, i: nat)
    requires p <= |prefix| && i + p <= |s| && prefix[..p] == s[i..i + p]
    requires forall q :: 0 <= q < p ==> !IsGlob(prefix[q])
    ensures var p := LiteralFrom(prefix, p, s, i);
            && prefix[..p] == s[i..i + p]
            && (forall q :: 0 <= q < p ==> !IsGlob(prefix[q]))
            && (p < |prefix| ==> IsGlob(prefix[p]) || prefix[p] != At(s, i + p))
    decreases |prefix| - p
  {
    if p < |prefix| && !IsGlob(prefix[p]) && prefix[p] == At(s, i + p) {
      assert prefix[..p + 1] == prefix[..p] + [prefix[p]];
      assert s[i..i + p + 1] == s[i..i + p] + [s[i + p]];
      LiteralFromFacts(prefix, p + 1, s, i);
    }
  }

  /** The remainder of the pattern, from j on, is what Maps sees below a subtree that starts there. */
  lemma RemainderMaps(t: Tree, s: CStr, j: nat, line: CStr, full: CStr, h: Hit)
    requires j <= |s| && full == s[..j] + line && line != []
    ensures Maps(t, full, h.pattern, h.key, h.value) <==>
            IsPrefix(s[..j], h.pattern) && Maps(t, line, h.pattern[j..], h.key, h.value)
    ensures Maps(t, full, h.pattern, h.key, h.value) ==> j < |h.pattern| && h.pattern[j] == line[0]
  {
    if IsPrefix(s[..j], h.pattern) {
      assert h.pattern == s[..j] + h.pattern[j..];
      MapsShift(t, s[..j], line, h.pattern[j..], h.key, h.value);
    }
    if Maps(t, full, h.pattern, h.key, h.value) {
      MapsPrefix(t, full, h.pattern, h.key, h.value);
      PrefixOfSum(s[..j], line);
      PrefixTransitive(s[..j], full, h.pattern);
      assert h.pattern[j] == Head(h.pattern, |full|)[j];
    }
  }

  /** What a glob inside the prefix adds: the node's patterns whose remainder from the glob on passes. */
  lemma PrefixHits(t: Tree, s: CStr, i: nat, p: nat, fnm: Fnmatch, h: Hit)
    requires i + p <= |s| && p < |t.prefix| && t.prefix[..p] == s[i..i + p] && IsGlob(t.prefix[p])
    ensures h in Subtree(t, p, s[..i + p], [], s[i + p..], fnm) <==>
            Maps(t, s[..i] + t.prefix, h.pattern, h.key, h.value) && MatchesAt(h.pattern, s, i + p, fnm)
  {
    var j, line := i + p, t.prefix[p..];
    assert [] + line == line;
    assert s[..i] + t.prefix == s[..j] + line;
    SubtreeExact(t, p, s[..j], [], s[j..], fnm, h);
    RemainderMaps(t, s, j, line, s[..i] + t.prefix, h);
  }

  /** The full string of a child of a node whose full string is s[..j]. */
  function KidFull(t: Tree, k: nat, s: CStr, j: nat): CStr
    requires k < |t.kids| && j <= |s|
  {
    Snoc(s[..j], t.kids[k].c) + t.kids[k].tree.prefix
  }

  /** What a child entered by a special character adds: its patterns whose remainder from there on passes. */
  lemma GlobKidHits(t: Tree, c: Char, s: CStr, j: nat, fnm: Fnmatch, h: Hit)
    requires j <= |s| && IsGlob(c)
    ensures h in GlobKid(t, c, s, j, fnm) <==>
            KidIndex(t.kids, c) < |t.kids| && MatchesAt(h.pattern, s, j, fnm) &&
            Maps(t.kids[KidIndex(t.kids, c)].tree, KidFull(t, KidIndex(t.kids, c), s, j), h.pattern, h.key, h.value)
  {
    var k := KidIndex(t.kids, c);
    if k < |t.kids| {
      var kid := t.kids[k].tree;
      var line := [c] + kid.prefix[0..];
      assert KidFull(t, k, s, j) == s[..j] + line;
      SubtreeExact(kid, 0, s[..j], [c], s[j..], fnm, h);
      RemainderMaps(kid, s, j, line, KidFull(t, k, s, j), h);
    }
  }

  /** A match through one of the children entered by a special character. */
  ghost predicate ThroughGlob(t: Tree, s: CStr, j: nat, fnm: Fnmatch, h: Hit) {
    && j <= |s|
    && MatchesAt(h.pattern, s, j, fnm)
    && exists k :: 0 <= k < |t.kids| && IsGlob(t.kids[k].c) &&
                   Maps(t.kids[k].tree, KidFull(t, k, s, j), h.pattern, h.key, h.value)
  }

  lemma KidIndexUnique(t: Tree, k: nat)
    requires Ordered(t) && k < |t.kids|
    ensures KidIndex(t.kids, t.kids[k].c) == k
  {
    KidFromFirst(t.kids, t.kids[k].c, 0, k);
  }

  lemma GlobKidsHits(t: Tree, s: CStr, j: nat, fnm: Fnmatch, h: Hit)
    requires j <= |s| && Ordered(t)
    ensures h in GlobKids(t, s, j, fnm) <==> ThroughGlob(t, s, j, fnm, h)
  {
    GlobKidHits(t, STAR, s, j, fnm, h);
    GlobKidHits(t, QUESTION, s, j, fnm, h);
    GlobKidHits(t, BRACKET, s, j, fnm, h);
    forall k | 0 <= k < |t.kids|
      ensures KidIndex(t.kids, t.kids[k].c) == k
    {
      KidIndexUnique(t, k);
    }
  }

  /** A node whose prefix is all literal. */
  lemma SearchPast(t: Tree, s: CStr, i: nat, j: nat, fnm: Fnmatch)
    requires i <= |s| && Literal(t.prefix, s, i) == |t.prefix| == j - i
    ensures j <= |s| && Search(t, s, i, fnm) == GlobKids(t, s, j, fnm) + Onward(t, s, j, fnm)
  {
    var p := Literal(t.prefix, s, i);
    assert Search(t, s, i, fnm) == GlobKids(t, s, i + p, fnm) + Onward(t, s, i + p, fnm);
  }

  lemma StepThrough(t: Tree, s: CStr, i: nat, j: nat, fnm: Fnmatch, h: Hit)
    requires i <= |s| && Ordered(t) && Literal(t.prefix, s, i) == |t.prefix| == j - i
    ensures j <= |s|
    ensures h in Search(t, s, i, fnm) <==> ThroughGlob(t, s, j, fnm, h) || h in Onward(t, s, j, fnm)
  {
    SearchPast(t, s, i, j, fnm);
    GlobKidsHits(t, s, j, fnm, h);
  }

  /** A node whose prefix holds a special character, or differs from the search string. */
  lemma StepInside(t: Tree, s: CStr, i: nat, fnm: Fnmatch, h: Hit)
    requires i <= |s| && Literal(t.prefix, s, i) < |t.prefix|
    ensures var p := Literal(t.prefix, s, i);
            h in Search(t, s, i, fnm) <==>
            && IsGlob(t.prefix[p])
            && Maps(t, s[..i] + t.prefix, h.pattern, h.key, h.value)
            && MatchesAt(h.pattern, s, i + p, fnm)
  {
    var p := Literal(t.prefix, s, i);
    LiteralFacts(t.prefix, s, i);
    if IsGlob(t.prefix[p]) {
      PrefixHits(t, s, i, p, fnm, h);
    }
  }

  /** The full string of a node whose prefix is all literal is a head of the search string. */
  lemma PastPrefix(t: Tree, s: CStr, i: nat, j: nat)
    requires i <= |s| && Literal(t.prefix, s, i) == |t.prefix| == j - i
    ensures j <= |s| && s[..j] == s[..i] + t.prefix
  {
    LiteralFacts(t.prefix, s, i);
  }

  /**
    Soundness: whatever the traversal adds is in the trie, and its pattern repeats the
    search string up to some point from which it passes fnmatch(), or repeats all of it.
    */
  lemma {:induction false} SearchSound(t: Tree, s: CStr, i: nat, fnm: Fnmatch, h: Hit) returns (k: nat)
    requires i <= |s| && Ordered(t)
    requires h in Search(t, s, i, fnm)
    ensures i <= k && MatchesAt(h.pattern, s, k, fnm)
    ensures Maps(t, s[..i] + t.prefix, h.pattern, h.key, h.value)
    decreases t, 1
  {
    k := i + Literal(t.prefix, s, i);
    if k < i + |t.prefix| {
      StepInside(t, s, i, fnm, h);
    } else {
      StepThrough(t, s, i, k, fnm, h);
      PastPrefix(t, s, i, k);
      if !ThroughGlob(t, s, k, fnm, h) {
        k := OnwardSound(t, s, k, fnm, h);
      }
    }
  }

  lemma {:induction false} OnwardSound(t: Tree, s: CStr, j: nat, fnm: Fnmatch, h: Hit) returns (k: nat)
    requires j <= |s| && Ordered(t)
    requires h in Onward(t, s, j, fnm)
    ensures j <= k && MatchesAt(h.pattern, s, k, fnm)
    ensures Maps(t, s[..j], h.pattern, h.key, h.value)
    decreases t, 0
  {
    if j == |s| {
      AllPairHits(s, t.pairs, h);
      assert s[..j] == s;
      k := j;
    } else {
      var n := KidIndex(t.kids, s[j]);
      assert s[..j + 1] == Snoc(s[..j], s[j]);
      k := SearchSound(t.kids[n].tree, s, j + 1, fnm, h);
    }
  }

  lemma MatchesAtHead(pattern: CStr, s: CStr, fnm: Fnmatch)
    requires Matches(pattern, s, fnm)
    ensures MatchesAt(pattern, s, HeadLen(pattern), fnm)
  {
    HeadLenFacts(pattern);
  }

  lemma SameBeforeHead(pattern: CStr, s: CStr, k: nat, fnm: Fnmatch)
    requires Matches(pattern, s, fnm)
    ensures k < HeadLen(pattern) ==> k < |s| && pattern[k] == s[k]
  {
    if k < HeadLen(pattern) {
      assert pattern[..HeadLen(pattern)][k] == Head(s, HeadLen(pattern))[k];
    }
  }

  lemma CharAt(path: CStr, prefix: CStr, pattern: CStr, p: nat)
    requires IsPrefix(path + prefix, pattern) && p < |prefix|
    ensures |path| + p < |pattern| && pattern[|path| + p] == prefix[p]
  {
    assert pattern[|path| + p] == Head(pattern, |path + prefix|)[|path| + p];
  }

  /** A prefix inside a pattern that matches s is literal up to the pattern's first special character. */
  lemma {:induction false} HeadInPrefix(prefix: CStr, p: nat, pattern: CStr, s: CStr, i: nat, fnm: Fnmatch)
    requires i <= |s| && IsPrefix(s[..i] + prefix, pattern) && p <= |prefix| && i + p <= |s|
    requires Matches(pattern, s, fnm) && i + p <= HeadLen(pattern)
    ensures var p := LiteralFrom(prefix, p, s, i);
            && i + p <= HeadLen(pattern)
            && (p < |prefix| ==> i + p == HeadLen(pattern) && IsGlob(prefix[p]))
    decreases |prefix| - p
  {
    if p < |prefix| {
      HeadLenFacts(pattern);
      CharAt(s[..i], prefix, pattern, p);
      SameBeforeHead(pattern, s, i + p, fnm);
      if i + p < HeadLen(pattern) {
        HeadInPrefix(prefix, p + 1, pattern, s, i, fnm);
      }
    }
  }

  /** A pattern below t that matches s: t's prefix is literal up to the pattern's first special character. */
  lemma HeadInNode(t: Tree, s: CStr, i: nat, fnm: Fnmatch, h: Hit)
    requires i <= |s| && Maps(t, s[..i] + t.prefix, h.pattern, h.key, h.value)
    requires Matches(h.pattern, s, fnm) && i <= HeadLen(h.pattern)
    ensures var p := Literal(t.prefix, s, i);
            && i + p <= HeadLen(h.pattern)
            && (p < |t.prefix| ==> IsGlob(t.prefix[p]) && MatchesAt(h.pattern, s, i + p, fnm))
  {
    MapsPrefix(t, s[..i] + t.prefix, h.pattern, h.key, h.value);
    HeadInPrefix(t.prefix, 0, h.pattern, s, i, fnm);
    MatchesAtHead(h.pattern, s, fnm);
  }

  /** Completeness: every pattern of the trie that matches is found, whatever the search string. */
  lemma {:induction false} SearchComplete(t: Tree, s: CStr, i: nat, fnm: Fnmatch, h: Hit)
    requires i <= |s| && Ordered(t)
    requires Maps(t, s[..i] + t.prefix, h.pattern, h.key, h.value)
    requires Matches(h.pattern, s, fnm) && i <= HeadLen(h.pattern)
    ensures h in Search(t, s, i, fnm)
    decreases t, 1
  {
    HeadInNode(t, s, i, fnm, h);
    if Literal(t.prefix, s, i) < |t.prefix| {
      StepInside(t, s, i, fnm, h);
    } else {
      var j := i + |t.prefix|;
      PastPrefix(t, s, i, j);
      OnwardComplete(t, s, j, fnm, h);
      StepThrough(t, s, i, j, fnm, h);
    }
  }

  lemma {:induction false} OnwardComplete(t: Tree, s: CStr, j: nat, fnm: Fnmatch, h: Hit)
    requires j <= |s| && Ordered(t)
    requires Maps(t, s[..j], h.pattern, h.key, h.value)
    requires Matches(h.pattern, s, fnm) && j <= HeadLen(h.pattern)
    ensures ThroughGlob(t, s, j, fnm, h) || h in Onward(t, s, j, fnm)
    decreases t, 0
  {
    if h.pattern == s[..j] && (h.key, h.value) in t.pairs {
      WholeString(h.pattern, s, j, fnm);
      AllPairHits(s, t.pairs, h);
    } else if !ThroughGlob(t, s, j, fnm, h) {
      var n := NextKid(t, s, j, fnm, h);
      SearchComplete(t.kids[n].tree, s, j + 1, fnm, h);
    }
  }

  /** A pattern that is a part of the string up to j, with no special character before, is all of it. */
  lemma WholeString(pattern: CStr, s: CStr, j: nat, fnm: Fnmatch)
    requires j <= |s| && pattern == s[..j] && Matches(pattern, s, fnm) && j <= HeadLen(pattern)
    ensures j == |s| && pattern == s
  {
    MatchesAtHead(pattern, s, fnm);
  }

  /** The pattern is below the child for the next character, and its head goes on. */
  lemma NextKid(t: Tree, s: CStr, j: nat, fnm: Fnmatch, h: Hit) returns (n: nat)
    requires j <= |s| && Ordered(t) && Maps(t, s[..j], h.pattern, h.key, h.value)
    requires !(h.pattern == s[..j] && (h.key, h.value) in t.pairs)
    requires Matches(h.pattern, s, fnm) && j <= HeadLen(h.pattern) && !ThroughGlob(t, s, j, fnm, h)
    ensures j < |s| && j < HeadLen(h.pattern) && n == KidIndex(t.kids, s[j]) < |t.kids|
    ensures Maps(t.kids[n].tree, s[..j + 1] + t.kids[n].tree.prefix, h.pattern, h.key, h.value)
  {
    MatchesAtHead(h.pattern, s, fnm);
    n :| 0 <= n < |t.kids| && Maps(t.kids[n].tree, KidFull(t, n, s, j), h.pattern, h.key, h.value);
    NextChar(t, n, s, j, h);
    HeadLenFacts(h.pattern);
    SameBeforeHead(h.pattern, s, j, fnm);
    KidIndexUnique(t, n);
    KidFullNext(t, n, s, j);
  }

  /** Entered by the next character of the search string. */
  lemma KidFullNext(t: Tree, n: nat, s: CStr, j: nat)
    requires j < |s| && n < |t.kids| && t.kids[n].c == s[j]
    ensures KidFull(t, n, s, j) == s[..j + 1] + t.kids[n].tree.prefix
  {
    assert s[..j + 1] == Snoc(s[..j], s[j]);
  }

  lemma NextChar(t: Tree, n: nat, s: CStr, j: nat, h: Hit)
    requires j <= |s| && n < |t.kids|
    requires Maps(t.kids[n].tree, KidFull(t, n, s, j), h.pattern, h.key, h.value)
    ensures j < |h.pattern| && h.pattern[j] == t.kids[n].c
  {
    var full := KidFull(t, n, s, j);
    MapsPrefix(t.kids[n].tree, full, h.pattern, h.key, h.value);
    assert h.pattern[j] == Head(h.pattern, |full|)[j];
  }

  /** What is left of a pattern, and what is left of the string from j on: both nothing, or a match from a glob on. */
  predicate Remainder(rest: CStr, s: CStr, j: nat, fnm: Fnmatch)
    requires j <= |s|
  {
    if rest == [] then j == |s| else IsGlob(rest[0]) && fnm(rest, s[j..])
  }

  /**
    fnmatch() carries over the special characters of the string: a remainder that matches
    from some point on matches from the first special character on as well, with the
    string's own characters in front of it.
    */
  ghost predicate Carries(s: CStr, fnm: Fnmatch) {
    var k := HeadLen(s);
    forall j: nat, rest: CStr {:trigger Remainder(rest, s, j, fnm)} ::
      k < j <= |s| && Remainder(rest, s, j, fnm) ==> fnm(s[k..j] + rest, s[k..])
  }

  /** A string without special characters asks nothing of fnmatch(). */
  lemma GlobFreeCarries(s: CStr, fnm: Fnmatch)
    requires GlobFree(s)
    ensures Carries(s, fnm)
  {
    HeadLenUnique(s, |s|);
  }

  // ---- characters that match themselves ----

  ghost predicate MatchesItself(fnm: Fnmatch, c: Char, p: CStr, u: CStr) {
    fnm(p, u) ==> fnm(Cons(c, p), Cons(c, u))
  }

  /** As fnmatch() does: nothing matches nothing, and all characters but [ (91) and backslash (92) match themselves. */
  ghost predicate SelfMatching(fnm: Fnmatch) {
    && fnm([], [])
    && forall c: Char, p: CStr, u: CStr {:trigger MatchesItself(fnm, c, p, u)} ::
         c != 91 && c != 92 ==> MatchesItself(fnm, c, p, u)
  }

  lemma {:induction false} SelfMatchingFrom(s: CStr, fnm: Fnmatch, i: nat, j: nat, rest: CStr)
    requires SelfMatching(fnm) && i <= j <= |s| && Remainder(rest, s, j, fnm)
    requires forall q :: i <= q < j ==> s[q] != 91 && s[q] != 92
    ensures fnm(s[i..j] + rest, s[i..])
    decreases j - i
  {
    if i == j {
      assert s[i..j] + rest == rest;
    } else {
      SelfMatchingFrom(s, fnm, i + 1, j, rest);
      assert MatchesItself(fnm, s[i], s[i + 1..j] + rest, s[i + 1..]);
      assert Cons(s[i], s[i + 1..j] + rest) == s[i..j] + rest;
      assert Cons(s[i], s[i + 1..]) == s[i..];
    }
  }

  /** With such an fnmatch() only [ and backslash, from the first special character on, can go wrong. */
  lemma SelfMatchingCarries(s: CStr, fnm: Fnmatch)
    requires SelfMatching(fnm)
    requires forall q :: HeadLen(s) <= q < |s| ==> s[q] != 91 && s[q] != 92
    ensures Carries(s, fnm)
  {
    var k := HeadLen(s);
    forall j: nat, rest: CStr | k < j <= |s| && Remainder(rest, s, j, fnm)
      ensures fnm(s[k..j] + rest, s[k..])
    {
      SelfMatchingFrom(s, fnm, k, j, rest);
    }
  }

  // ---- exactness ----

  /** Where a pattern repeats the string up to k, its head ends at k or with the string's own head. */
  lemma HeadWhereItMatches(pattern: CStr, s: CStr, k: nat, fnm: Fnmatch)
    requires MatchesAt(pattern, s, k, fnm)
    ensures HeadLen(pattern) == if k < HeadLen(s) then k else HeadLen(s)
    ensures k <= HeadLen(s) ==> Matches(pattern, s, fnm)
    ensures k > HeadLen(s) ==> HeadLen(s) < |pattern|
  {
    HeadLenFacts(s);
    assert forall q :: 0 <= q < k ==> pattern[q] == pattern[..k][q] == s[..k][q];
    if k <= HeadLen(s) {
      HeadLenUnique(pattern, k);
    } else {
      HeadLenUnique(pattern, HeadLen(s));
    }
  }

  lemma MatchesAtOwnHead(pattern: CStr, s: CStr, k: nat, fnm: Fnmatch)
    requires Carries(s, fnm) && MatchesAt(pattern, s, k, fnm)
    ensures Matches(pattern, s, fnm)
  {
    var h := HeadLen(s);
    HeadWhereItMatches(pattern, s, k, fnm);
    if k > h {
      assert Remainder(pattern[k..], s, k, fnm);
      assert pattern[h..] == pattern[..k][h..] + pattern[k..];
      assert pattern[..k][h..] == s[h..k];
      assert pattern[..h] == pattern[..k][..h] == s[..h];
    }
  }

  /**
    Where fnmatch() carries, and so for every string without special characters, the
    traversal finds exactly the patterns that the plain scan finds.
    */
  lemma SearchExact(t: Tree, s: CStr, fnm: Fnmatch, h: Hit)
    requires Ordered(t) && Carries(s, fnm)
    ensures h in Search(t, s, 0, fnm) <==>
            Maps(t, t.prefix, h.pattern, h.key, h.value) && Matches(h.pattern, s, fnm)
  {
    assert s[..0] + t.prefix == t.prefix;
    if h in Search(t, s, 0, fnm) {
      var k := SearchSound(t, s, 0, fnm, h);
      MatchesAtOwnHead(h.pattern, s, k, fnm);
    }
    if Maps(t, t.prefix, h.pattern, h.key, h.value) && Matches(h.pattern, s, fnm) {
      SearchComplete(t, s, 0, fnm, h);
    }
  }
}
