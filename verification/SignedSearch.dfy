/**
  The traversal as compiled where plain char is signed.  There a byte above 127 of the
  search string is negative, and trie_search_f() (lib/libudev-hwdb.c) takes no byte of a
  node's prefix for the same; labels of children are compared as unsigned bytes.
  */
module SignedSearch {
  import opened CStrings
  import opened ChildArrays
  import opened PatternTree
  import opened LookupSpec

  /** How much of the prefix is passed. */
  function PassFrom(prefix: CStr, p: nat, s: CStr, i: nat, signed: bool): (n: nat)
    requires p <= |prefix| && i + p <= |s|
    ensures p <= n <= |prefix| && i + n <= |s|
    decreases |prefix| - p
  {
    if p < |prefix| && !IsGlob(prefix[p]) && SameChar(prefix[p], At(s, i + p), signed) then
      PassFrom(prefix, p + 1, s, i, signed)
    else p
  }

  function Pass(prefix: CStr, s: CStr, i: nat, signed: bool): (n: nat)
    requires i <= |s|
    ensures n <= |prefix| && i + n <= |s|
  {
    PassFrom(prefix, 0, s, i, signed)
  }

  /** trie_search_f() from the node t, entered after i characters of the search string. */
  function SearchIn(t: Tree, s: CStr, i: nat, fnm: Fnmatch, signed: bool): seq<Hit>
    requires i <= |s|
    decreases t, 1
  {
    var p := Pass(t.prefix, s, i, signed);
    var j := i + p;
    if p == |t.prefix| then GlobKids(t, s, j, fnm) + OnwardIn(t, s, j, fnm, signed)
    else if IsGlob(t.prefix[p]) then Subtree(t, p, s[..j], [], s[j..], fnm)
    else []
  }

  function OnwardIn(t: Tree, s: CStr, j: nat, fnm: Fnmatch, signed: bool): seq<Hit>
    requires j <= |s|
    decreases t, 0
  {
    if j == |s| then PairHits(s, t.pairs, |t.pairs|)
    else
      var k := KidIndex(t.kids, s[j]);
      if k < |t.kids| then SearchIn(t.kids[k].tree, s, j + 1, fnm, signed) else []
  }

  // ---- against the traversal with unsigned characters ----

  /** A signed char ends the pass at the first byte above 127. */
  lemma {:induction false} PassIsLiteral(prefix: CStr, p: nat, s: CStr, i: nat, signed: bool)
    requires p <= |prefix| && i + p <= |s|
    ensures var n, m := PassFrom(prefix, p, s, i, signed), LiteralFrom(prefix, p, s, i);
            && n <= m && (n < m ==> !IsGlob(prefix[n]))
            && ((!signed || NoSign(s, i + p, i + m)) ==> n == m)
    decreases |prefix| - p
  {
    if p < |prefix| && !IsGlob(prefix[p]) && prefix[p] == At(s, i + p) {
      PassIsLiteral(prefix, p + 1, s, i, signed);
    }
  }

  lemma PassPast(t: Tree, s: CStr, i: nat, j: nat, fnm: Fnmatch, signed: bool)
    requires i <= |s| && Pass(t.prefix, s, i, signed) == |t.prefix| == j - i
    ensures j <= |s| && SearchIn(t, s, i, fnm, signed) == GlobKids(t, s, j, fnm) + OnwardIn(t, s, j, fnm, signed)
  {
  }

  lemma BothPast(t: Tree, s: CStr, i: nat, j: nat, fnm: Fnmatch, signed: bool)
    requires i <= |s| && Pass(t.prefix, s, i, signed) == |t.prefix| == j - i
    ensures j <= |s| && SearchIn(t, s, i, fnm, signed) == GlobKids(t, s, j, fnm) + OnwardIn(t, s, j, fnm, signed)
    ensures Search(t, s, i, fnm) == GlobKids(t, s, j, fnm) + Onward(t, s, j, fnm)
  {
    PassPast(t, s, i, j, fnm, signed);
    assert Literal(t.prefix, s, i) == |t.prefix| by {
      PassIsLiteral(t.prefix, 0, s, i, signed);
    }
    SearchPast(t, s, i, j, fnm);
  }

  /** Where the pass ends with the literal part inside a prefix, the two find the same. */
  lemma PassInside(t: Tree, s: CStr, i: nat, fnm: Fnmatch, signed: bool)
    requires i <= |s| && Pass(t.prefix, s, i, signed) == Literal(t.prefix, s, i) < |t.prefix|
    ensures SearchIn(t, s, i, fnm, signed) == Search(t, s, i, fnm)
  {
  }

  /** Where it ends earlier, with a byte above 127, nothing is found. */
  lemma PassEnds(t: Tree, s: CStr, i: nat, fnm: Fnmatch, signed: bool)
    requires i <= |s| && Pass(t.prefix, s, i, signed) < |t.prefix|
    ensures SearchIn(t, s, i, fnm, signed) == Search(t, s, i, fnm) || SearchIn(t, s, i, fnm, signed) == []
  {
    PassIsLiteral(t.prefix, 0, s, i, signed);
    if Pass(t.prefix, s, i, signed) == Literal(t.prefix, s, i) {
      PassInside(t, s, i, fnm, signed);
    }
  }

  /** Unsigned, or with no byte above 127 in the string, it is the same traversal. */
  lemma {:induction false} SameSearch(t: Tree, s: CStr, i: nat, fnm: Fnmatch, signed: bool)
    requires i <= |s| && (!signed || NoSign(s, i, |s|))
    ensures SearchIn(t, s, i, fnm, signed) == Search(t, s, i, fnm)
    decreases t, 1
  {
    PassIsLiteral(t.prefix, 0, s, i, signed);
    if Pass(t.prefix, s, i, signed) == |t.prefix| {
      var j := i + |t.prefix|;
      BothPast(t, s, i, j, fnm, signed);
      SameOnward(t, s, j, fnm, signed);
    } else {
      PassInside(t, s, i, fnm, signed);
    }
  }

  lemma {:induction false} SameOnward(t: Tree, s: CStr, j: nat, fnm: Fnmatch, signed: bool)
    requires j <= |s| && (!signed || NoSign(s, j, |s|))
    ensures OnwardIn(t, s, j, fnm, signed) == Onward(t, s, j, fnm)
    decreases t, 0
  {
    if j < |s| && KidIndex(t.kids, s[j]) < |t.kids| {
      SameSearch(t.kids[KidIndex(t.kids, s[j])].tree, s, j + 1, fnm, signed);
    }
  }

  /** Signed characters never add a hit. */
  lemma {:induction false} SignedWithin(t: Tree, s: CStr, i: nat, fnm: Fnmatch, signed: bool, h: Hit)
    requires i <= |s| && h in SearchIn(t, s, i, fnm, signed)
    ensures h in Search(t, s, i, fnm)
    decreases t, 1
  {
    if Pass(t.prefix, s, i, signed) == |t.prefix| {
      var j := i + |t.prefix|;
      BothPast(t, s, i, j, fnm, signed);
      if h !in GlobKids(t, s, j, fnm) {
        OnwardWithin(t, s, j, fnm, signed, h);
      }
    } else {
      PassEnds(t, s, i, fnm, signed);
    }
  }

  lemma {:induction false} OnwardWithin(t: Tree, s: CStr, j: nat, fnm: Fnmatch, signed: bool, h: Hit)
    requires j <= |s| && h in OnwardIn(t, s, j, fnm, signed)
    ensures h in Onward(t, s, j, fnm)
    decreases t, 0
  {
    if j < |s| {
      SignedWithin(t.kids[KidIndex(t.kids, s[j])].tree, s, j + 1, fnm, signed, h);
    }
  }

  /** A pattern that matches is found if the rest of its head has no byte above 127. */
  lemma {:induction false} SignedComplete(t: Tree, s: CStr, i: nat, fnm: Fnmatch, signed: bool, h: Hit)
    requires i <= |s| && Ordered(t) && Maps(t, s[..i] + t.prefix, h.pattern, h.key, h.value)
    requires Matches(h.pattern, s, fnm) && i <= HeadLen(h.pattern) <= |s|
    requires !signed || NoSign(s, i, HeadLen(h.pattern))
    ensures h in SearchIn(t, s, i, fnm, signed)
    decreases t, 1
  {
    HeadInNode(t, s, i, fnm, h);
    PassIsLiteral(t.prefix, 0, s, i, signed);
    if Literal(t.prefix, s, i) < |t.prefix| {
      SearchComplete(t, s, i, fnm, h);
      PassInside(t, s, i, fnm, signed);
    } else {
      var j := i + |t.prefix|;
      PastPrefix(t, s, i, j);
      PassPast(t, s, i, j, fnm, signed);
      if h !in GlobKids(t, s, j, fnm) {
        SignedOnward(t, s, j, fnm, signed, h);
      }
    }
  }

  lemma {:induction false} SignedOnward(t: Tree, s: CStr, j: nat, fnm: Fnmatch, signed: bool, h: Hit)
    requires j <= |s| && Ordered(t) && Maps(t, s[..j], h.pattern, h.key, h.value)
    requires Matches(h.pattern, s, fnm) && j <= HeadLen(h.pattern) <= |s| && h !in GlobKids(t, s, j, fnm)
    requires !signed || NoSign(s, j + 1, HeadLen(h.pattern))
    ensures h in OnwardIn(t, s, j, fnm, signed)
    decreases t, 0
  {
    GlobKidsHits(t, s, j, fnm, h);
    if h.pattern == s[..j] && (h.key, h.value) in t.pairs {
      WholeString(h.pattern, s, j, fnm);
      AllPairHits(s, t.pairs, h);
    } else {
      var n := NextKid(t, s, j, fnm, h);
      SignedComplete(t.kids[n].tree, s, j + 1, fnm, signed, h);
    }
  }

  // ---- from the root, which has no prefix: the first character is the label of a child ----

  lemma RootPast(t: Tree, s: CStr, fnm: Fnmatch, signed: bool)
    requires t.prefix == []
    ensures SearchIn(t, s, 0, fnm, signed) == GlobKids(t, s, 0, fnm) + OnwardIn(t, s, 0, fnm, signed)
    ensures Search(t, s, 0, fnm) == GlobKids(t, s, 0, fnm) + Onward(t, s, 0, fnm)
  {
    BothPast(t, s, 0, 0, fnm, signed);
  }

  /** Unsigned, or with no byte above 127 behind the first. */
  lemma RootSame(t: Tree, s: CStr, fnm: Fnmatch, signed: bool)
    requires t.prefix == [] && (!signed || NoSign(s, 1, |s|))
    ensures SearchIn(t, s, 0, fnm, signed) == Search(t, s, 0, fnm)
  {
    RootPast(t, s, fnm, signed);
    if s != [] && KidIndex(t.kids, s[0]) < |t.kids| {
      SameSearch(t.kids[KidIndex(t.kids, s[0])].tree, s, 1, fnm, signed);
    }
  }

  lemma RootComplete(t: Tree, s: CStr, fnm: Fnmatch, signed: bool, h: Hit)
    requires t.prefix == [] && Ordered(t) && Maps(t, t.prefix, h.pattern, h.key, h.value)
    requires Matches(h.pattern, s, fnm) && HeadLen(h.pattern) <= |s|
    requires !signed || NoSign(s, 1, HeadLen(h.pattern))
    ensures h in SearchIn(t, s, 0, fnm, signed)
  {
    RootPast(t, s, fnm, signed);
    assert s[..0] == t.prefix;
    if h !in GlobKids(t, s, 0, fnm) {
      SignedOnward(t, s, 0, fnm, signed, h);
    }
  }

  /** A pattern that matches has its head in common with the string. */
  lemma HeadWithin(pattern: CStr, s: CStr, fnm: Fnmatch)
    requires Matches(pattern, s, fnm)
    ensures HeadLen(pattern) <= HeadLen(s)
  {
    HeadLenFacts(pattern);
    HeadLenFacts(s);
    if HeadLen(s) < HeadLen(pattern) {
      SameBeforeHead(pattern, s, HeadLen(s), fnm);
    }
  }
}
