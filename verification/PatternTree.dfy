/**
  The match trie as a tree of strings, and what a lookup in it returns: the
  traversal of trie_search_f() and trie_fnmatch_f() (lib/libudev-hwdb.c) as
  functions, and the plain scan over all patterns that it must agree with.

  fnmatch() is a parameter throughout.
  */
module PatternTree {
  import opened CStrings
  import opened ChildArrays

  datatype Tree = Tree(prefix: CStr, kids: seq<Edge>, pairs: seq<(CStr, CStr)>)
  datatype Edge = Edge(c: Char, tree: Tree)

  /** A pattern found to match, with one key and value given for it. */
  datatype Hit = Hit(pattern: CStr, key: CStr, value: CStr)

  const STAR: Char := 42
  const QUESTION: Char := 63
  const BRACKET: Char := 91

  predicate IsGlob(c: Byte) {
    c == STAR || c == QUESTION || c == BRACKET
  }

  predicate GlobFree(s: CStr) {
    forall i :: 0 <= i < |s| ==> !IsGlob(s[i])
  }

  /** Below a node whose full string is `full`, key is mapped to value under the pattern. */
  ghost predicate Maps(t: Tree, full: CStr, pattern: CStr, key: CStr, value: CStr) {
    || (pattern == full && (key, value) in t.pairs)
    || exists i :: 0 <= i < |t.kids| && Maps(t.kids[i].tree, Snoc(full, t.kids[i].c) + t.kids[i].tree.prefix,
                                             pattern, key, value)
  }

  /** Children are sorted by label, all the way down. */
  ghost predicate Ordered(t: Tree) {
    && (forall i, j :: 0 <= i < j < |t.kids| ==> t.kids[i].c < t.kids[j].c)
    && (forall i :: 0 <= i < |t.kids| ==> Ordered(t.kids[i].tree))
  }

  // ---- the plain scan ----

  /** The length of the literal head: up to the first *, ? or [. */
  function HeadLen(pattern: CStr): (n: nat)
    ensures n <= |pattern|
  {
    if pattern == [] || IsGlob(pattern[0]) then 0 else 1 + HeadLen(pattern[1..])
  }

  /** The literal head starts the string; the remainder matches the rest, or is nothing and so is the rest. */
  predicate Matches(pattern: CStr, s: CStr, fnm: (CStr, CStr) -> bool) {
    var h := HeadLen(pattern);
    && IsPrefix(pattern[..h], s)
    && if h == |pattern| then h == |s| else fnm(pattern[h..], s[h..])
  }

  // ---- the traversal ----

  /** The first n values. */
  function PairHits(pattern: CStr, pairs: seq<(CStr, CStr)>, n: nat): seq<Hit>
    requires n <= |pairs|
  {
    if n == 0 then [] else PairHits(pattern, pairs, n - 1) + [Hit(pattern, pairs[n - 1].0, pairs[n - 1].1)]
  }

  /**
    trie_fnmatch_f(): every pattern below t, remainders only, against the rest of the
    search string.  The line buffer holds acc, and gets the prefix from position p on;
    base is the literal head before it.
    */
  function Subtree(t: Tree, p: nat, base: CStr, acc: CStr, rest: CStr, fnm: (CStr, CStr) -> bool): seq<Hit>
    requires p <= |t.prefix|
    decreases t, |t.kids| + 1
  {
    var line := acc + t.prefix[p..];
    Kids(t, 0, base, line, rest, fnm) + Own(t, base, line, rest, fnm)
  }

  /** The children from the n-th on, each with its label added to the line. */
  function Kids(t: Tree, n: nat, base: CStr, line: CStr, rest: CStr, fnm: (CStr, CStr) -> bool): seq<Hit>
    requires n <= |t.kids|
    decreases t, |t.kids| - n
  {
    if n == |t.kids| then []
    else
      Subtree(t.kids[n].tree, 0, base, Snoc(line, t.kids[n].c), rest, fnm) + Kids(t, n + 1, base, line, rest, fnm)
  }

  /** The node's own values, when the line passes. */
  function Own(t: Tree, base: CStr, line: CStr, rest: CStr, fnm: (CStr, CStr) -> bool): seq<Hit> {
    if t.pairs != [] && fnm(line, rest) then PairHits(base + line, t.pairs, |t.pairs|) else []
  }

  /** How much of the prefix is literal and repeats the search string from position i. */
  function Literal(prefix: CStr, s: CStr, i: nat): (n: nat)
    requires i <= |s|
    ensures n <= |prefix| && i + n <= |s|
  {
    LiteralFrom(prefix, 0, s, i)
  }

  function LiteralFrom(prefix: CStr, p: nat, s: CStr, i: nat): (n: nat)
    requires p <= |prefix| && i + p <= |s|
    ensures p <= n <= |prefix| && i + n <= |s|
    decreases |prefix| - p
  {
    if p < |prefix| && !IsGlob(prefix[p]) && prefix[p] == At(s, i + p) then LiteralFrom(prefix, p + 1, s, i) else p
  }

  /** The index of the first child with this label, or the number of children. */
  function KidIndex(kids: seq<Edge>, c: Char): (i: nat)
    ensures i <= |kids|
    ensures i < |kids| ==> kids[i].c == c
  {
    KidFrom(kids, c, 0)
  }

  function KidFrom(kids: seq<Edge>, c: Char, n: nat): (i: nat)
    requires n <= |kids|
    ensures n <= i <= |kids|
    ensures i < |kids| ==> kids[i].c == c
    decreases |kids| - n
  {
    if n == |kids| || kids[n].c == c then n else KidFrom(kids, c, n + 1)
  }

  lemma {:induction false} KidFromFirst(kids: seq<Edge>, c: Char, n: nat, k: nat)
    requires n <= k < |kids| && kids[k].c == c
    ensures KidFrom(kids, c, n) <= k
    decreases |kids| - n
  {
    if n < k && kids[n].c != c {
      KidFromFirst(kids, c, n + 1, k);
    }
  }

  /** A child entered by a special character: all its patterns, by fnmatch(). */
  function GlobKid(t: Tree, c: Char, s: CStr, i: nat, fnm: (CStr, CStr) -> bool): seq<Hit>
    requires i <= |s|
  {
    var k := KidIndex(t.kids, c);
    if k < |t.kids| then Subtree(t.kids[k].tree, 0, s[..i], [c], s[i..], fnm) else []
  }

  function GlobKids(t: Tree, s: CStr, j: nat, fnm: (CStr, CStr) -> bool): seq<Hit>
    requires j <= |s|
  {
    GlobKid(t, STAR, s, j, fnm) + GlobKid(t, QUESTION, s, j, fnm) + GlobKid(t, BRACKET, s, j, fnm)
  }

  /** trie_search_f() from the node t, entered after i characters of the search string. */
  function Search(t: Tree, s: CStr, i: nat, fnm: (CStr, CStr) -> bool): seq<Hit>
    requires i <= |s|
    decreases t, 1
  {
    var p := Literal(t.prefix, s, i);
    var j := i + p;
    if p == |t.prefix| then GlobKids(t, s, j, fnm) + Onward(t, s, j, fnm)
    else if IsGlob(t.prefix[p]) then Subtree(t, p, s[..j], [], s[j..], fnm)
    else []
  }

  /** Past the node's prefix: at the end of the search string its values, else the child for the next character. */
  function Onward(t: Tree, s: CStr, j: nat, fnm: (CStr, CStr) -> bool): seq<Hit>
    requires j <= |s|
    decreases t, 0
  {
    if j == |s| then PairHits(s, t.pairs, |t.pairs|)
    else
      var k := KidIndex(t.kids, s[j]);
      if k < |t.kids| then Search(t.kids[k].tree, s, j + 1, fnm) else []
  }

  // ---- what a subtree adds ----

  lemma {:induction false} PairHitsMember(pattern: CStr, pairs: seq<(CStr, CStr)>, n: nat, h: Hit)
    requires n <= |pairs|
    ensures h in PairHits(pattern, pairs, n) <==> h.pattern == pattern && (h.key, h.value) in pairs[..n]
    decreases n
  {
    if n > 0 {
      PairHitsMember(pattern, pairs, n - 1, h);
      assert pairs[..n] == pairs[..n - 1] + [pairs[n - 1]];
    }
  }

  lemma AllPairHits(pattern: CStr, pairs: seq<(CStr, CStr)>, h: Hit)
    ensures h in PairHits(pattern, pairs, |pairs|) <==> h.pattern == pattern && (h.key, h.value) in pairs
  {
    PairHitsMember(pattern, pairs, |pairs|, h);
    assert pairs[..|pairs|] == pairs;
  }

  /** All full strings can be lengthened alike. */
  lemma {:induction false} MapsShift(t: Tree, base: CStr, full: CStr, pattern: CStr, key: CStr, value: CStr)
    ensures Maps(t, base + full, base + pattern, key, value) <==> Maps(t, full, pattern, key, value)
    decreases t
  {
    if base + pattern == base + full {
      assert pattern == (base + pattern)[|base|..];
      assert full == (base + full)[|base|..];
    }
    forall i | 0 <= i < |t.kids|
      ensures Maps(t.kids[i].tree, Snoc(base + full, t.kids[i].c) + t.kids[i].tree.prefix, base + pattern, key,
                   value) <==>
              Maps(t.kids[i].tree, Snoc(full, t.kids[i].c) + t.kids[i].tree.prefix, pattern, key, value)
    {
      var kid := t.kids[i];
      assert Snoc(base + full, kid.c) + kid.tree.prefix == base + (Snoc(full, kid.c) + kid.tree.prefix);
      MapsShift(kid.tree, base, Snoc(full, kid.c) + kid.tree.prefix, pattern, key, value);
    }
  }

  /** Patterns below a node start with its full string. */
  lemma {:induction false} MapsPrefix(t: Tree, full: CStr, pattern: CStr, key: CStr, value: CStr)
    requires Maps(t, full, pattern, key, value)
    ensures IsPrefix(full, pattern)
    decreases t
  {
    if !(pattern == full && (key, value) in t.pairs) {
      var i :| 0 <= i < |t.kids| && Maps(t.kids[i].tree, Snoc(full, t.kids[i].c) + t.kids[i].tree.prefix, pattern,
                                         key, value);
      var full' := Snoc(full, t.kids[i].c) + t.kids[i].tree.prefix;
      MapsPrefix(t.kids[i].tree, full', pattern, key, value);
      PrefixTransitive(full, full', pattern);
    }
  }

  /** A subtree adds exactly its patterns whose remainder passes fnmatch(). */
  lemma {:induction false} SubtreeExact(t: Tree, p: nat, base: CStr, acc: CStr, rest: CStr,
                                        fnm: (CStr, CStr) -> bool, h: Hit)
    requires p <= |t.prefix|
    ensures h in Subtree(t, p, base, acc, rest, fnm) <==>
            IsPrefix(base, h.pattern) && fnm(h.pattern[|base|..], rest) &&
            Maps(t, acc + t.prefix[p..], h.pattern[|base|..], h.key, h.value)
    decreases t, |t.kids| + 1
  {
    var line := acc + t.prefix[p..];
    KidsExact(t, 0, base, line, rest, fnm, h);
    AllPairHits(base + line, t.pairs, h);
    PrefixOfSum(base, line);
    assert IsPrefix(base, h.pattern) ==> h.pattern == base + h.pattern[|base|..];
    assert (base + line)[|base|..] == line;
  }

  lemma {:induction false} KidsExact(t: Tree, n: nat, base: CStr, line: CStr, rest: CStr, fnm: (CStr, CStr) -> bool,
                                     h: Hit)
    requires n <= |t.kids|
    ensures h in Kids(t, n, base, line, rest, fnm) <==>
            IsPrefix(base, h.pattern) && fnm(h.pattern[|base|..], rest) &&
            exists i :: n <= i < |t.kids| &&
                        Maps(t.kids[i].tree, Snoc(line, t.kids[i].c) + t.kids[i].tree.prefix,
                             h.pattern[|base|..], h.key, h.value)
    decreases t, |t.kids| - n
  {
    if n < |t.kids| {
      var kid := t.kids[n].tree;
      SubtreeExact(kid, 0, base, Snoc(line, t.kids[n].c), rest, fnm, h);
      assert kid.prefix[0..] == kid.prefix;
      KidsExact(t, n + 1, base, line, rest, fnm, h);
    }
  }
}
