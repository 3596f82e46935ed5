/**
  Where a lookup agrees with the plain scan over all rules, whatever the rules: exactly
  where fnmatch() carries over the special characters of the search string.  A special
  character there can be taken as the label of a child, and the patterns behind it are
  then matched from a point further on than their first special character.
  */
module LookupLimits {
  import opened CStrings
  import opened PatternTree
  import opened LookupSpec
  import opened SignedSearch
  import opened HwdbReader
  import opened HwdbUpdate
  import TrieTree

  /** Lookups of the string agree with the scan over the rules, whatever these are. */
  ghost predicate AlwaysAnswered(s: CStr, fnm: Fnmatch) {
    forall rules, t :: BuiltFrom(rules, t) ==> Answered(rules, s, fnm, AfterHits(map[], Search(t, s, 0, fnm)))
  }

  // ---- a trie with a node at every position ----

  const KEY: CStr := [SPACE]
  const OTHER_KEY: CStr := [SPACE, 120]
  const TARGET: seq<(CStr, CStr)> := [(KEY, [])]
  const OTHER: seq<(CStr, CStr)> := [(OTHER_KEY, [])]

  /** From the q-th character of s to the j-th, and then on by the rest of a pattern. */
  function Chain(prefix: CStr, s: CStr, q: nat, j: nat, rest: CStr): Tree
    requires q <= j <= |s|
    decreases j - q
  {
    if q < j then Tree(prefix, [Edge(s[q], Chain([], s, q + 1, j, rest))], OTHER)
    else if rest == [] then Tree(prefix, [], TARGET)
    else Tree(prefix, [Edge(rest[0], Tree(rest[1..], [], TARGET))], OTHER)
  }

  function ChainRules(s: CStr, q: nat, j: nat, rest: CStr): seq<Rule>
    requires q <= j <= |s|
    decreases j - q
  {
    if q < j then [Rule(s[..q], OTHER_KEY, [])] + ChainRules(s, q + 1, j, rest)
    else if rest == [] then [Rule(s[..j], KEY, [])]
    else [Rule(s[..j], OTHER_KEY, []), Rule(s[..j] + rest, KEY, [])]
  }

  /** The whole trie: the first k characters in one node. */
  function WholeTree(s: CStr, k: nat, j: nat, rest: CStr): Tree
    requires k <= j <= |s|
  {
    if k == 0 then Chain([], s, 0, j, rest) else Tree([], [Edge(s[0], Chain(s[1..k], s, k, j, rest))], [])
  }

  // ---- the rules of the trie ----

  lemma {:induction false} GivenEmpty(rules: seq<Rule>, p: CStr, key: CStr, v: CStr)
    requires forall i :: 0 <= i < |rules| ==> rules[i].value == []
    ensures Given(rules, p, key, v) <==> v == [] && Rule(p, key, []) in rules
    decreases |rules|
  {
    if rules != [] {
      var n := |rules| - 1;
      GivenEmpty(rules[..n], p, key, v);
      assert rules == rules[..n] + [rules[n]];
    }
  }

  lemma {:induction false} ChainRulesEmpty(s: CStr, q: nat, j: nat, rest: CStr)
    requires q <= j <= |s|
    ensures forall i :: 0 <= i < |ChainRules(s, q, j, rest)| ==> ChainRules(s, q, j, rest)[i].value == []
    decreases j - q
  {
    if q < j {
      ChainRulesEmpty(s, q + 1, j, rest);
    }
  }

  /** The last rule is the one with the key looked for. */
  lemma {:induction false} ChainTarget(s: CStr, q: nat, j: nat, rest: CStr, p: CStr)
    requires q <= j <= |s|
    ensures Rule(p, KEY, []) in ChainRules(s, q, j, rest) <==> p == s[..j] + rest
    decreases j - q
  {
    if q < j {
      ChainTarget(s, q + 1, j, rest, p);
    } else if rest == [] {
      assert s[..j] + rest == s[..j];
    }
  }

  lemma OneKid(prefix: CStr, c: Char, sub: Tree, pairs: seq<(CStr, CStr)>, full: CStr, p: CStr, key: CStr, v: CStr)
    ensures Maps(Tree(prefix, [Edge(c, sub)], pairs), full, p, key, v) <==>
            (p == full && (key, v) in pairs) || Maps(sub, Snoc(full, c) + sub.prefix, p, key, v)
  {
    assert Tree(prefix, [Edge(c, sub)], pairs).kids[0] == Edge(c, sub);
  }

  lemma {:induction false} ChainMaps(prefix: CStr, s: CStr, q: nat, j: nat, rest: CStr, p: CStr, key: CStr, v: CStr)
    requires q <= j <= |s|
    ensures Maps(Chain(prefix, s, q, j, rest), s[..q], p, key, v) <==>
            v == [] && Rule(p, key, []) in ChainRules(s, q, j, rest)
    decreases j - q
  {
    if q < j {
      var sub := Chain([], s, q + 1, j, rest);
      OneKid(prefix, s[q], sub, OTHER, s[..q], p, key, v);
      assert Snoc(s[..q], s[q]) + sub.prefix == s[..q + 1];
      ChainMaps([], s, q + 1, j, rest, p, key, v);
    } else if rest != [] {
      var sub := Tree(rest[1..], [], TARGET);
      OneKid(prefix, rest[0], sub, OTHER, s[..j], p, key, v);
      assert Snoc(s[..j], rest[0]) + sub.prefix == s[..j] + rest;
    }
  }

  lemma WholeMaps(s: CStr, k: nat, j: nat, rest: CStr, p: CStr, key: CStr, v: CStr)
    requires k <= j <= |s|
    ensures Maps(WholeTree(s, k, j, rest), [], p, key, v) <==> Given(ChainRules(s, k, j, rest), p, key, v)
  {
    ChainRulesEmpty(s, k, j, rest);
    GivenEmpty(ChainRules(s, k, j, rest), p, key, v);
    if k == 0 {
      ChainMaps([], s, 0, j, rest, p, key, v);
      assert s[..0] == [];
    } else {
      var sub := Chain(s[1..k], s, k, j, rest);
      OneKid([], s[0], sub, [], [], p, key, v);
      assert Snoc([], s[0]) + sub.prefix == s[..k];
      ChainMaps(s[1..k], s, k, j, rest, p, key, v);
    }
  }

  lemma {:induction false} ChainShape(prefix: CStr, s: CStr, q: nat, j: nat, rest: CStr)
    requires q <= j <= |s|
    ensures var t := Chain(prefix, s, q, j, rest);
            Ordered(t) && TrieTree.Compact(t) && t.prefix == prefix && t.pairs != []
    decreases j - q
  {
    if q < j {
      ChainShape([], s, q + 1, j, rest);
    } else if rest != [] {
      var leaf := Tree(rest[1..], [], TARGET);
      assert Ordered(leaf) && TrieTree.Compact(leaf);
    }
  }

  /** It is the trie that trie_insert() makes of the rules. */
  lemma WholeBuilt(s: CStr, k: nat, j: nat, rest: CStr)
    requires k <= j <= |s|
    ensures BuiltFrom(ChainRules(s, k, j, rest), WholeTree(s, k, j, rest))
  {
    var t := WholeTree(s, k, j, rest);
    ChainShape(if k == 0 then [] else s[1..k], s, k, j, rest);
    forall p, key, v
      ensures Maps(t, t.prefix, p, key, v) <==> Given(ChainRules(s, k, j, rest), p, key, v)
    {
      WholeMaps(s, k, j, rest, p, key, v);
    }
  }

  // ---- what a lookup finds there ----

  /** A prefix that repeats the search string, all of it literal, is passed. */
  lemma {:induction false} LiteralAll(prefix: CStr, p: nat, s: CStr, i: nat)
    requires p <= |prefix| && i + |prefix| <= |s| && prefix == s[i..i + |prefix|] && GlobFree(prefix)
    ensures LiteralFrom(prefix, p, s, i) == |prefix|
    decreases |prefix| - p
  {
    if p < |prefix| {
      assert prefix[p] == s[i + p];
      LiteralAll(prefix, p + 1, s, i);
    }
  }

  /** The next character of the string is the label of the only child: what is found there is found. */
  lemma OneKidFound(t: Tree, sub: Tree, s: CStr, i: nat, j: nat, fnm: Fnmatch, h: Hit)
    requires j == i + |t.prefix| < |s| && t.prefix == s[i..j] && GlobFree(t.prefix)
    requires t.kids == [Edge(s[j], sub)] && h in Search(sub, s, j + 1, fnm)
    ensures h in Search(t, s, i, fnm)
  {
    LiteralAll(t.prefix, 0, s, i);
    SearchPast(t, s, i, j, fnm);
    assert t.kids[0] == Edge(s[j], sub);
    assert KidIndex(t.kids, s[j]) == 0;
  }

  /** The node ends with the string: its values are found. */
  lemma LastNodeFound(t: Tree, s: CStr, i: nat, fnm: Fnmatch, h: Hit)
    requires i + |t.prefix| == |s| && t.prefix == s[i..i + |t.prefix|] && GlobFree(t.prefix)
    requires h.pattern == s && (h.key, h.value) in t.pairs
    ensures h in Search(t, s, i, fnm)
  {
    LiteralAll(t.prefix, 0, s, i);
    SearchPast(t, s, i, |s|, fnm);
    AllPairHits(s, t.pairs, h);
  }

  /** The only child is entered by a special character, and the remainder from there on passes. */
  lemma GlobKidFound(t: Tree, sub: Tree, s: CStr, i: nat, j: nat, fnm: Fnmatch, h: Hit)
    requires j == i + |t.prefix| <= |s| && t.prefix == s[i..j] && GlobFree(t.prefix) && Ordered(t)
    requires MatchesAt(h.pattern, s, j, fnm) && j < |h.pattern| && t.kids == [Edge(h.pattern[j], sub)]
    requires h.pattern[j + 1..] == sub.prefix && (h.key, h.value) in sub.pairs
    ensures h in Search(t, s, i, fnm)
  {
    LiteralAll(t.prefix, 0, s, i);
    StepThrough(t, s, i, j, fnm, h);
    assert t.kids[0] == Edge(h.pattern[j], sub);
    assert KidFull(t, 0, s, j) == h.pattern;
  }

  /** At the end of the chain the rest of the pattern is matched, or it was the end of the string. */
  lemma EndFound(prefix: CStr, s: CStr, i: nat, j: nat, rest: CStr, fnm: Fnmatch, h: Hit)
    requires i + |prefix| == j <= |s| && Remainder(rest, s, j, fnm) && h == Hit(s[..j] + rest, KEY, [])
    requires prefix == s[i..j] && GlobFree(prefix)
    ensures h in Search(Chain(prefix, s, j, j, rest), s, i, fnm)
  {
    var t := Chain(prefix, s, j, j, rest);
    assert (KEY, []) in TARGET;
    if rest == [] {
      assert s[..j] + rest == s;
      LastNodeFound(t, s, i, fnm, h);
    } else {
      ChainShape(prefix, s, j, j, rest);
      PatternParts(s[..j], rest);
      GlobKidFound(t, Tree(rest[1..], [], TARGET), s, i, j, fnm, h);
    }
  }

  lemma PatternParts(head: CStr, rest: CStr)
    requires rest != []
    ensures var pattern := head + rest;
            && pattern[..|head|] == head && pattern[|head|..] == rest && pattern[|head|] == rest[0]
            && pattern[|head| + 1..] == rest[1..]
  {
  }

  lemma {:induction false} ChainFound(prefix: CStr, s: CStr, i: nat, q: nat, j: nat, rest: CStr, fnm: Fnmatch, h: Hit)
    requires i + |prefix| == q <= j <= |s| && Remainder(rest, s, j, fnm) && h == Hit(s[..j] + rest, KEY, [])
    requires prefix == s[i..q] && GlobFree(prefix)
    ensures h in Search(Chain(prefix, s, q, j, rest), s, i, fnm)
    decreases j - q
  {
    if q == j {
      EndFound(prefix, s, i, j, rest, fnm, h);
    } else {
      ChainFound([], s, q + 1, q + 1, j, rest, fnm, h);
      ChainStep(prefix, s, i, q, j, rest, fnm, h);
    }
  }

  lemma ChainStep(prefix: CStr, s: CStr, i: nat, q: nat, j: nat, rest: CStr, fnm: Fnmatch, h: Hit)
    requires i + |prefix| == q < j <= |s| && prefix == s[i..q] && GlobFree(prefix)
    requires h in Search(Chain([], s, q + 1, j, rest), s, q + 1, fnm)
    ensures h in Search(Chain(prefix, s, q, j, rest), s, i, fnm)
  {
    var sub := Chain([], s, q + 1, j, rest);
    OneKidFound(Tree(prefix, [Edge(s[q], sub)], OTHER), sub, s, i, q, fnm, h);
  }

  /** From the root, which has no prefix and one child. */
  lemma RootKidFound(t: Tree, sub: Tree, s: CStr, fnm: Fnmatch, h: Hit)
    requires s != [] && h in Search(sub, s, 1, fnm) && t.prefix == [] && t.kids == [Edge(s[0], sub)]
    ensures h in Search(t, s, 0, fnm)
  {
    OneKidFound(t, sub, s, 0, 0, fnm, h);
  }

  /** The characters from i to j are no special characters. */
  lemma GlobFreePart(s: CStr, i: nat, j: nat)
    requires i <= j <= |s| && forall q :: i <= q < j ==> !IsGlob(s[q])
    ensures GlobFree(s[i..j])
  {
  }

  /** Entered by its first character, which the root has as a label. */
  lemma FoundFromOne(s: CStr, k: nat, j: nat, rest: CStr, fnm: Fnmatch, h: Hit)
    requires 0 < k <= j <= |s| && Remainder(rest, s, j, fnm) && h == Hit(s[..j] + rest, KEY, [])
    requires forall q :: 0 <= q < k ==> !IsGlob(s[q])
    ensures h in Search(Chain(s[1..k], s, k, j, rest), s, 1, fnm)
  {
    GlobFreePart(s, 1, k);
    ChainFound(s[1..k], s, 1, k, j, rest, fnm, h);
  }

  lemma WholeFound(s: CStr, k: nat, j: nat, rest: CStr, fnm: Fnmatch, h: Hit)
    requires k <= j <= |s| && Remainder(rest, s, j, fnm) && h == Hit(s[..j] + rest, KEY, [])
    requires forall q :: 0 <= q < k ==> !IsGlob(s[q])
    ensures h in Search(WholeTree(s, k, j, rest), s, 0, fnm)
  {
    if k == 0 {
      ChainFound([], s, 0, 0, j, rest, fnm, h);
    } else {
      FoundFromOne(s, k, j, rest, fnm, h);
      RootKidFound(WholeTree(s, k, j, rest), Chain(s[1..k], s, k, j, rest), s, fnm, h);
    }
  }

  // ---- where fnmatch() does not carry ----

  /** A property found that no matching rule gives. */
  lemma FoundNotGiven(rules: seq<Rule>, t: Tree, s: CStr, fnm: Fnmatch, h: Hit)
    requires h in Search(t, s, 0, fnm) && h.key == KEY
    requires forall p, v :: Given(rules, p, KEY, v) ==> !Matches(p, s, fnm)
    ensures !Answered(rules, s, fnm, AfterHits(map[], Search(t, s, 0, fnm)))
  {
    var name: CStr := [];
    assert Cons(SPACE, name) == KEY;
    var w := PropertyOfHits(Search(t, s, 0, fnm), name);
    assert name in AfterHits(map[], Search(t, s, 0, fnm));
  }

  /** The pattern looked for is not carried, and does not match. */
  lemma TargetFails(s: CStr, fnm: Fnmatch, j: nat, rest: CStr)
    requires HeadLen(s) < j <= |s| && Remainder(rest, s, j, fnm)
    requires !fnm(s[HeadLen(s)..j] + rest, s[HeadLen(s)..])
    ensures !Matches(s[..j] + rest, s, fnm)
  {
    RepeatsTo(s, j, rest, fnm);
    HeadWhereItMatches(s[..j] + rest, s, j, fnm);
    FromThere(s, HeadLen(s), j, rest);
  }

  lemma RepeatsTo(s: CStr, j: nat, rest: CStr, fnm: Fnmatch)
    requires j <= |s| && Remainder(rest, s, j, fnm)
    ensures MatchesAt(s[..j] + rest, s, j, fnm)
  {
    var p := s[..j] + rest;
    assert p[..j] == s[..j] && p[j..] == rest;
  }

  lemma FromThere(s: CStr, k: nat, j: nat, rest: CStr)
    requires k <= j <= |s|
    ensures (s[..j] + rest)[k..] == s[k..j] + rest
  {
  }

  lemma NotCarried(s: CStr, fnm: Fnmatch, j: nat, rest: CStr)
    requires HeadLen(s) < j <= |s| && Remainder(rest, s, j, fnm)
    requires !fnm(s[HeadLen(s)..j] + rest, s[HeadLen(s)..])
    ensures !AlwaysAnswered(s, fnm)
  {
    var k := HeadLen(s);
    var rules, t := ChainRules(s, k, j, rest), WholeTree(s, k, j, rest);
    HeadLenFacts(s);
    WholeBuilt(s, k, j, rest);
    WholeFound(s, k, j, rest, fnm, Hit(s[..j] + rest, KEY, []));
    TargetFails(s, fnm, j, rest);
    ChainRulesEmpty(s, k, j, rest);
    forall p, v | Given(rules, p, KEY, v)
      ensures !Matches(p, s, fnm)
    {
      GivenEmpty(rules, p, KEY, v);
      ChainTarget(s, k, j, rest, p);
    }
    FoundNotGiven(rules, t, s, fnm, Hit(s[..j] + rest, KEY, []));
  }

  /**
    Lookups of a string agree with the scan over the rules, whatever these are, exactly
    when fnmatch() carries over the string's special characters.
    */
  lemma AnsweredExactly(s: CStr, fnm: Fnmatch)
    ensures AlwaysAnswered(s, fnm) <==> Carries(s, fnm)
  {
    if Carries(s, fnm) {
      forall rules, t | BuiltFrom(rules, t)
        ensures Answered(rules, s, fnm, AfterHits(map[], Search(t, s, 0, fnm)))
      {
        LookupAnswered(rules, t, s, fnm);
      }
    } else {
      var j: nat, rest: CStr :| HeadLen(s) < j <= |s| && Remainder(rest, s, j, fnm) &&
                                !fnm(s[HeadLen(s)..j] + rest, s[HeadLen(s)..]);
      NotCarried(s, fnm, j, rest);
    }
  }

  /** With an fnmatch() in which characters match themselves, * and ? in the string do no harm. */
  lemma AnsweredWithoutBrackets(s: CStr, fnm: Fnmatch)
    requires SelfMatching(fnm)
    requires forall q :: HeadLen(s) <= q < |s| ==> s[q] != 91 && s[q] != 92
    ensures AlwaysAnswered(s, fnm)
  {
    SelfMatchingCarries(s, fnm);
    AnsweredExactly(s, fnm);
  }

  /** A pattern match that takes the question mark alone for anything, and nothing else. */
  function OnlyQuestion(): Fnmatch {
    (pattern: CStr, s: CStr) => pattern == [QUESTION]
  }

  /** For every fnmatch() at once: exactly the strings without special characters. */
  lemma AnsweredForEveryFnmatch(s: CStr)
    ensures (forall fnm :: AlwaysAnswered(s, fnm)) <==> GlobFree(s)
  {
    if GlobFree(s) {
      forall fnm
        ensures AlwaysAnswered(s, fnm)
      {
        GlobFreeCarries(s, fnm);
        AnsweredExactly(s, fnm);
      }
    } else {
      var k, fnm := HeadLen(s), OnlyQuestion();
      HeadLenFacts(s);
      assert Remainder([QUESTION], s, k + 1, fnm);
      assert |s[k..k + 1] + [QUESTION]| == 2;
      NotCarried(s, fnm, k + 1, [QUESTION]);
    }
  }

  // ---- an input that goes wrong ----

  /** A rule for the beginning of the string, and one for the string itself. */
  function TwoRules(s: CStr, k: nat): seq<Rule>
    requires k < |s|
  {
    [Rule(s[..k], OTHER_KEY, []), Rule(s, KEY, [])]
  }

  function TwoLeaf(s: CStr, k: nat): Tree
    requires 0 < k < |s|
  {
    Tree(s[k + 1..], [], TARGET)
  }

  function TwoMiddle(s: CStr, k: nat): Tree
    requires 0 < k < |s|
  {
    Tree(s[1..k], [Edge(s[k], TwoLeaf(s, k))], OTHER)
  }

  function TwoTree(s: CStr, k: nat): Tree
    requires 0 < k < |s|
  {
    Tree([], [Edge(s[0], TwoMiddle(s, k))], [])
  }

  lemma TwoBuilt(s: CStr, k: nat)
    requires 0 < k < |s|
    ensures BuiltFrom(TwoRules(s, k), TwoTree(s, k))
  {
    var rules, t := TwoRules(s, k), TwoTree(s, k);
    var leaf, middle := TwoLeaf(s, k), TwoMiddle(s, k);
    forall p, key, v
      ensures Maps(t, t.prefix, p, key, v) <==> Given(rules, p, key, v)
    {
      GivenEmpty(rules, p, key, v);
      OneKid([], s[0], middle, [], [], p, key, v);
      assert Snoc([], s[0]) + middle.prefix == s[..k];
      OneKid(s[1..k], s[k], leaf, OTHER, s[..k], p, key, v);
      assert Snoc(s[..k], s[k]) + leaf.prefix == s;
    }
    assert Ordered(leaf) && TrieTree.Compact(leaf);
    assert Ordered(middle) && TrieTree.Compact(middle);
  }

  lemma LeafFound(s: CStr, k: nat, fnm: Fnmatch, h: Hit)
    requires 0 < k < |s| && GlobFree(s[k + 1..]) && h == Hit(s, KEY, [])
    ensures h in Search(TwoLeaf(s, k), s, k + 1, fnm)
  {
    assert (KEY, []) in TARGET;
    LastNodeFound(TwoLeaf(s, k), s, k + 1, fnm, h);
  }

  lemma MiddleFound(s: CStr, k: nat, fnm: Fnmatch, h: Hit)
    requires 0 < k < |s| && GlobFree(s[k + 1..]) && GlobFree(s[1..k]) && h == Hit(s, KEY, [])
    ensures h in Search(TwoMiddle(s, k), s, 1, fnm)
  {
    LeafFound(s, k, fnm, h);
    OneKidFound(TwoMiddle(s, k), TwoLeaf(s, k), s, 1, k, fnm, h);
  }

  lemma TwoFound(s: CStr, k: nat, fnm: Fnmatch, h: Hit)
    requires 0 < k < |s| && GlobFree(s[k + 1..]) && GlobFree(s[1..k]) && h == Hit(s, KEY, [])
    ensures h in Search(TwoTree(s, k), s, 0, fnm)
  {
    MiddleFound(s, k, fnm, h);
    RootKidFound(TwoTree(s, k), TwoMiddle(s, k), s, fnm, h);
  }

  /** The only rule with the key looked for is the string itself, which does not match. */
  lemma LiteralFails(s: CStr, k: nat, fnm: Fnmatch, p: CStr, v: CStr)
    requires 0 < k < |s| && HeadLen(s) == k && !fnm(s[k..], s[k..])
    requires Given(TwoRules(s, k), p, KEY, v)
    ensures !Matches(p, s, fnm)
  {
    GivenEmpty(TwoRules(s, k), p, KEY, v);
  }

  /** A string with one special character that fnmatch() does not match with itself is found as a literal. */
  lemma FoundAsLiteral(s: CStr, k: nat, fnm: Fnmatch)
    requires 0 < k < |s| && IsGlob(s[k]) && forall q :: 0 <= q < |s| && q != k ==> !IsGlob(s[q])
    requires !fnm(s[k..], s[k..])
    ensures BuiltFrom(TwoRules(s, k), TwoTree(s, k))
    ensures !Answered(TwoRules(s, k), s, fnm, AfterHits(map[], Search(TwoTree(s, k), s, 0, fnm)))
  {
    TwoBuilt(s, k);
    HeadLenUnique(s, k);
    GlobFreePart(s, k + 1, |s|);
    GlobFreePart(s, 1, k);
    LiteralNotGiven(TwoRules(s, k), TwoTree(s, k), s, k, fnm);
  }

  lemma LiteralNotGiven(rules: seq<Rule>, t: Tree, s: CStr, k: nat, fnm: Fnmatch)
    requires 0 < k < |s| && rules == TwoRules(s, k) && t == TwoTree(s, k)
    requires HeadLen(s) == k && !fnm(s[k..], s[k..]) && GlobFree(s[k + 1..]) && GlobFree(s[1..k])
    ensures !Answered(rules, s, fnm, AfterHits(map[], Search(t, s, 0, fnm)))
  {
    TwoFound(s, k, fnm, Hit(s, KEY, []));
    forall p, v | Given(rules, p, KEY, v)
      ensures !Matches(p, s, fnm)
    {
      LiteralFails(s, k, fnm, p, v);
    }
    FoundNotGiven(rules, t, s, fnm, Hit(s, KEY, []));
  }

  /** With rules for "a" and "a[b]", looking up "a[b]" finds the second, which does not match: "[b]" stands for a b. */
  lemma BracketLookedUp(fnm: Fnmatch)
    requires !fnm([91, 98, 93], [91, 98, 93])
    ensures var s: CStr := [97, 91, 98, 93];
            && TwoRules(s, 1) == [Rule([97], OTHER_KEY, []), Rule(s, KEY, [])]
            && BuiltFrom(TwoRules(s, 1), TwoTree(s, 1))
            && !Answered(TwoRules(s, 1), s, fnm, AfterHits(map[], Search(TwoTree(s, 1), s, 0, fnm)))
  {
    var s: CStr := [97, 91, 98, 93];
    assert s[..1] == [97] && s[1..] == [91, 98, 93];
    FoundAsLiteral(s, 1, fnm);
  }

  // ---- signed characters ----

  /** Whatever the rules, no one that matches the string is missed. */
  ghost predicate NeverMisses(s: CStr, fnm: Fnmatch, signed: bool) {
    forall rules, t :: BuiltFrom(rules, t) ==>
                         NoneMissed(rules, s, fnm, AfterHits(map[], SearchIn(t, s, 0, fnm, signed)))
  }

  /** The trie of one rule. */
  function OneTree(p: CStr): Tree
    requires p != []
  {
    Tree([], [Edge(p[0], OneLeaf(p))], [])
  }

  function OneLeaf(p: CStr): Tree
    requires p != []
  {
    Tree(p[1..], [], TARGET)
  }

  lemma OneBuilt(s: CStr)
    requires s != []
    ensures BuiltFrom([Rule(s, KEY, [])], OneTree(s))
  {
    var rules, t, leaf := [Rule(s, KEY, [])], OneTree(s), OneLeaf(s);
    forall p, key, v
      ensures Maps(t, t.prefix, p, key, v) <==> Given(rules, p, key, v)
    {
      GivenEmpty(rules, p, key, v);
      OneKid([], s[0], leaf, [], [], p, key, v);
      assert Snoc([], s[0]) + leaf.prefix == s;
    }
    assert Ordered(leaf) && TrieTree.Compact(leaf);
  }

  /** A prefix that repeats the string up to a byte above 127 is not passed there. */
  lemma {:induction false} StopsAtSign(prefix: CStr, p: nat, s: CStr, i: nat, q: nat)
    requires i + p <= q < i + |prefix| && q < |s| && s[q] >= SIGN
    requires forall k :: 0 <= k <= q - i ==> prefix[k] == s[i + k] && !IsGlob(prefix[k])
    ensures PassFrom(prefix, p, s, i, true) <= q - i
    decreases |prefix| - p
  {
    if i + p < q {
      StopsAtSign(prefix, p + 1, s, i, q);
    }
  }

  /** The leaf is entered, and its prefix not passed. */
  lemma LeafMissed(p: CStr, s: CStr, fnm: Fnmatch, q: nat)
    requires 1 <= q < |s| && q < |p| && s[q] >= SIGN
    requires forall k :: 0 <= k <= q ==> p[k] == s[k] && !IsGlob(p[k])
    ensures SearchIn(OneLeaf(p), s, 1, fnm, true) == []
  {
    StopsAtSign(p[1..], 0, s, 1, q);
  }

  lemma OneMissed(p: CStr, s: CStr, fnm: Fnmatch, q: nat)
    requires 1 <= q < |s| && q < |p| && s[q] >= SIGN
    requires forall k :: 0 <= k <= q ==> p[k] == s[k] && !IsGlob(p[k])
    ensures SearchIn(OneTree(p), s, 0, fnm, true) == []
  {
    var t := OneTree(p);
    RootPast(t, s, fnm, true);
    LeafMissed(p, s, fnm, q);
    assert t.kids[0] == Edge(s[0], OneLeaf(p));
    assert KidIndex(t.kids, s[0]) == 0;
    NoGlobKids(t, s, fnm);
  }

  lemma NoGlobKids(t: Tree, s: CStr, fnm: Fnmatch)
    requires s != [] && !IsGlob(s[0]) && |t.kids| == 1 && t.kids[0].c == s[0]
    ensures GlobKids(t, s, 0, fnm) == []
  {
  }

  /**
    In a build where char is signed a matching rule can be missed exactly for strings with
    a byte above 127 behind their first and in front of their first special character.
    All that is asked of fnmatch() is that a star matches what is left from there on.
    */
  lemma MissesExactly(s: CStr, fnm: Fnmatch, signed: bool)
    requires GlobFree(s) || fnm([STAR], s[HeadLen(s)..])
    ensures NeverMisses(s, fnm, signed) <==> !signed || NoSign(s, 1, HeadLen(s))
  {
    HeadLenFacts(s);
    if !signed || NoSign(s, 1, HeadLen(s)) {
      forall rules, t | BuiltFrom(rules, t)
        ensures NoneMissed(rules, s, fnm, AfterHits(map[], SearchIn(t, s, 0, fnm, signed)))
      {
        LookupBracketed(rules, t, s, fnm, signed);
      }
    } else {
      var q :| 1 <= q < HeadLen(s) && s[q] >= SIGN;
      var p := RuleFor(s, fnm);
      OneBuilt(p);
      OneMissed(p, s, fnm, q);
      RuleMissed([Rule(p, KEY, [])], OneTree(p), p, s, fnm);
    }
  }

  /** A rule that matches the string and has its whole head. */
  lemma RuleFor(s: CStr, fnm: Fnmatch) returns (p: CStr)
    requires GlobFree(s) || fnm([STAR], s[HeadLen(s)..])
    ensures Matches(p, s, fnm) && HeadLen(s) <= |p|
    ensures forall k :: 0 <= k < HeadLen(s) ==> p[k] == s[k] && !IsGlob(p[k])
  {
    var h := HeadLen(s);
    HeadLenFacts(s);
    if GlobFree(s) {
      HeadLenUnique(s, |s|);
      p := s;
    } else {
      p := s[..h] + [STAR];
      HeadLenUnique(p, h);
      assert p[..h] == s[..h] && p[h..] == [STAR];
    }
  }

  lemma RuleMissed(rules: seq<Rule>, t: Tree, p: CStr, s: CStr, fnm: Fnmatch)
    requires rules == [Rule(p, KEY, [])] && Matches(p, s, fnm) && SearchIn(t, s, 0, fnm, true) == []
    ensures !NoneMissed(rules, s, fnm, AfterHits(map[], SearchIn(t, s, 0, fnm, true)))
  {
    var name: CStr := [];
    assert Cons(SPACE, name) == KEY;
    assert Given(rules, p, Cons(SPACE, name), []) && Matches(p, s, fnm);
  }
}
