/**
  `udevadm hwdb --update` and a lookup afterwards: the rules of the .hwdb files go
  into the trie one after the other, the trie is written to a file, and the file is
  searched.  What a lookup returns is stated on the rules alone.
  */
module HwdbUpdate {
  import opened CStrings
  import opened HwdbTrie
  import opened HwdbFile
  import opened HwdbReader
  import opened PatternTree
  import opened LookupSpec
  import opened SignedSearch
  import opened Precedence
  import HwdbStore
  import Radix
  import TrieTree
  import UdevLists

  /** One call of trie_insert(). */
  datatype Rule = Rule(pattern: CStr, key: CStr, value: CStr)

  /** The last rule for the pattern and the key gives the value. */
  ghost predicate Given(rules: seq<Rule>, pattern: CStr, key: CStr, value: CStr) {
    rules != [] &&
    var n := |rules| - 1;
    if rules[n].pattern == pattern && rules[n].key == key then rules[n].value == value
    else Given(rules[..n], pattern, key, value)
  }

  /** Patterns whose bytes compare as they are, in a build where char is signed too. */
  ghost predicate PlainPatterns(rules: seq<Rule>, signed: bool) {
    !signed || forall i :: 0 <= i < |rules| ==> NoSign(rules[i].pattern, 0, |rules[i].pattern|)
  }

  ghost predicate ShortPatterns(rules: seq<Rule>) {
    forall i :: 0 <= i < |rules| ==> |rules[i].pattern| <= 2046
  }

  lemma {:induction false} GivenShort(rules: seq<Rule>, pattern: CStr, key: CStr, value: CStr)
    requires ShortPatterns(rules) && Given(rules, pattern, key, value)
    ensures |pattern| + 1 < LINE_MAX
    decreases |rules|
  {
    var n := |rules| - 1;
    if !(rules[n].pattern == pattern && rules[n].key == key) {
      GivenShort(rules[..n], pattern, key, value);
    }
  }

  // ---- the line buffer is long enough ----

  ghost predicate ShortShape(shape: Shape) {
    forall a :: a in shape && shape[a].pairs != [] ==> |Radix.Full(a, shape)| + 1 < LINE_MAX
  }

  /** Every node is the beginning of a pattern. */
  lemma {:induction false} NodeShort(shape: Shape, a: CStr, spare: set<CStr>)
    requires Radix.Valid(shape) && Radix.Compact(shape, spare) && ShortShape(shape) && a in shape
    ensures |Radix.Full(a, shape)| + 1 < LINE_MAX
    decreases TrieTree.Deeper(shape, a)
  {
    assert a != [] ==> Radix.Useful(a, shape, spare);
    if shape[a].pairs == [] && shape[a].labels != [] {
      NodeShort(shape, TrieTree.KidPath(shape, a, 0), spare);
    }
  }

  lemma {:induction false} TreeFits(shape: Shape, a: CStr, spare: set<CStr>)
    requires Radix.Valid(shape) && Radix.Compact(shape, spare) && ShortShape(shape) && a in shape
    ensures Fits(TrieTree.TreeOf(shape, a), |a|)
    decreases TrieTree.Deeper(shape, a)
  {
    var t := TrieTree.TreeOf(shape, a);
    NodeShort(shape, a, spare);
    forall i | 0 <= i < |t.kids|
      ensures Fits(t.kids[i].tree, |a| + |t.prefix| + 1)
    {
      TrieTree.KidOf(shape, a, |t.kids|, i);
      TreeFits(shape, TrieTree.KidPath(shape, a, i), spare);
    }
  }

  // ---- from hits to properties ----

  /** A property is there when some hit gives it, with the value of the last one. */
  lemma {:induction false} PropertyOfHits(hits: seq<Hit>, name: CStr) returns (w: nat)
    ensures name in AfterHits(map[], hits) <==> w < |hits|
    ensures w < |hits| ==> IsWinner(hits, w, Cons(SPACE, name)) &&
                           AfterHits(map[], hits)[name] == UdevLists.Str(hits[w].value)
    ensures w >= |hits| ==> forall h :: h in hits ==> h.key != Cons(SPACE, name)
    decreases |hits|
  {
    w := 0;
    if hits != [] {
      var n := |hits| - 1;
      var last := hits[n];
      if last.key == Cons(SPACE, name) {
        assert last.key[1..] == name;
        w := n;
      } else {
        w := PropertyOfHits(hits[..n], name);
        if last.key != [] && last.key[0] == SPACE {
          assert last.key == Cons(SPACE, last.key[1..]);
        }
        if w == n {
          w := |hits|;
        }
      }
    }
  }

  /** Of the rules that match and give the key none has a longer literal head; an exact one only s itself ties with. */
  ghost predicate Prevails(rules: seq<Rule>, s: CStr, fnm: Fnmatch, key: CStr, pattern: CStr) {
    forall p, v :: Given(rules, p, key, v) && Matches(p, s, fnm) ==>
                     HeadLen(p) <= HeadLen(pattern) && (p == s && GlobFree(s) ==> pattern == s)
  }

  /** A property of a lookup: one of the rules that match gives it, and none that prevails over it does. */
  ghost predicate Answer(rules: seq<Rule>, s: CStr, fnm: Fnmatch, name: CStr, value: CStr) {
    exists p :: Given(rules, p, Cons(SPACE, name), value) && Matches(p, s, fnm) &&
                Prevails(rules, s, fnm, Cons(SPACE, name), p)
  }

  /**
    A lookup without special characters, on the rules alone: it has a property exactly
    when a matching rule gives one, and then the value of a rule that prevails.
    */
  ghost predicate Answered(rules: seq<Rule>, s: CStr, fnm: Fnmatch, found: Properties) {
    forall name {:trigger name in found} ::
      && (name in found <==> exists p, v :: Given(rules, p, Cons(SPACE, name), v) && Matches(p, s, fnm))
      && (name in found ==> found[name].Str? && Answer(rules, s, fnm, name, found[name].s))
  }

  ghost predicate TreeOfRules(rules: seq<Rule>, t: Tree) {
    Ordered(t) && t.prefix == [] && forall p, k, v :: Maps(t, t.prefix, p, k, v) <==> Given(rules, p, k, v)
  }

  /** What trie_insert() makes of the rules: nodes only where patterns end or part. */
  ghost predicate BuiltFrom(rules: seq<Rule>, t: Tree) {
    TreeOfRules(rules, t) && TrieTree.Compact(t)
  }

  lemma AnswerOfHits(rules: seq<Rule>, t: Tree, s: CStr, fnm: Fnmatch, hits: seq<Hit>, w: nat)
    requires TreeOfRules(rules, t) && Carries(s, fnm) && hits == Search(t, s, 0, fnm)
    requires w < |hits| && IsWinner(hits, w, hits[w].key)
    ensures Given(rules, hits[w].pattern, hits[w].key, hits[w].value) && Matches(hits[w].pattern, s, fnm)
    ensures Prevails(rules, s, fnm, hits[w].key, hits[w].pattern)
  {
    SearchExact(t, s, fnm, hits[w]);
    forall p, v | Given(rules, p, hits[w].key, v) && Matches(p, s, fnm)
      ensures HeadLen(p) <= HeadLen(hits[w].pattern) && (p == s && GlobFree(s) ==> hits[w].pattern == s)
    {
      WinnerOutranks(t, s, fnm, hits, w, Hit(p, hits[w].key, v));
    }
  }

  lemma NotGiven(rules: seq<Rule>, t: Tree, s: CStr, fnm: Fnmatch, hits: seq<Hit>, key: CStr, p: CStr, v: CStr)
    requires TreeOfRules(rules, t) && Carries(s, fnm) && hits == Search(t, s, 0, fnm)
    requires forall h :: h in hits ==> h.key != key
    requires Given(rules, p, key, v)
    ensures !Matches(p, s, fnm)
  {
    SearchExact(t, s, fnm, Hit(p, key, v));
    assert Hit(p, key, v) in hits ==> Hit(p, key, v).key != key;
  }

  ghost predicate Repeated(rules: seq<Rule>, s: CStr, fnm: Fnmatch, name: CStr, value: CStr) {
    exists p, k :: Given(rules, p, Cons(SPACE, name), value) && MatchesAt(p, s, k, fnm)
  }

  /** No matching rule is missed. */
  ghost predicate NoneMissed(rules: seq<Rule>, s: CStr, fnm: Fnmatch, found: Properties) {
    forall name, p, v :: Given(rules, p, Cons(SPACE, name), v) && Matches(p, s, fnm) ==> name in found
  }

  /** Each value comes from a rule that repeats the string up to some point from which it matches. */
  ghost predicate Sourced(rules: seq<Rule>, s: CStr, fnm: Fnmatch, found: Properties) {
    forall name :: name in found ==> found[name].Str? && Repeated(rules, s, fnm, name, found[name].s)
  }

  /**
    A lookup with whatever characters.  Where char is signed a byte above 127, behind the
    first and in front of the string's first special character, can make it miss a rule.
    */
  lemma LookupBracketed(rules: seq<Rule>, t: Tree, s: CStr, fnm: Fnmatch, signed: bool)
    requires TreeOfRules(rules, t)
    ensures Sourced(rules, s, fnm, AfterHits(map[], SearchIn(t, s, 0, fnm, signed)))
    ensures !signed || NoSign(s, 1, HeadLen(s)) ==>
              NoneMissed(rules, s, fnm, AfterHits(map[], SearchIn(t, s, 0, fnm, signed)))
  {
    var hits := SearchIn(t, s, 0, fnm, signed);
    var found := AfterHits(map[], hits);
    forall name | name in found
      ensures found[name].Str? && Repeated(rules, s, fnm, name, found[name].s)
    {
      var w := PropertyOfHits(hits, name);
      HitRepeated(rules, t, s, fnm, signed, hits[w]);
    }
    if !signed || NoSign(s, 1, HeadLen(s)) {
      forall name, p, v | Given(rules, p, Cons(SPACE, name), v) && Matches(p, s, fnm)
        ensures name in found
      {
        var w := PropertyOfHits(hits, name);
        HeadWithin(p, s, fnm);
        RootComplete(t, s, fnm, signed, Hit(p, Cons(SPACE, name), v));
      }
    }
  }

  lemma HitRepeated(rules: seq<Rule>, t: Tree, s: CStr, fnm: Fnmatch, signed: bool, h: Hit)
    requires TreeOfRules(rules, t) && h in SearchIn(t, s, 0, fnm, signed)
    ensures exists k :: MatchesAt(h.pattern, s, k, fnm)
    ensures Given(rules, h.pattern, h.key, h.value)
  {
    SignedWithin(t, s, 0, fnm, signed, h);
    assert s[..0] + t.prefix == t.prefix;
    var k := SearchSound(t, s, 0, fnm, h);
  }

  /** One name: it is found when a matching rule gives it, with the value of one that prevails. */
  lemma NameAnswered(rules: seq<Rule>, t: Tree, s: CStr, fnm: Fnmatch, hits: seq<Hit>, name: CStr)
    requires TreeOfRules(rules, t) && Carries(s, fnm) && hits == Search(t, s, 0, fnm)
    ensures var found := AfterHits(map[], hits);
            && (name in found <==> exists p, v :: Given(rules, p, Cons(SPACE, name), v) && Matches(p, s, fnm))
            && (name in found ==> found[name].Str? && Answer(rules, s, fnm, name, found[name].s))
  {
    var w := PropertyOfHits(hits, name);
    if w < |hits| {
      AnswerOfHits(rules, t, s, fnm, hits, w);
      assert hits[w].key == Cons(SPACE, name) && Prevails(rules, s, fnm, Cons(SPACE, name), hits[w].pattern);
      assert Given(rules, hits[w].pattern, Cons(SPACE, name), hits[w].value) && Matches(hits[w].pattern, s, fnm);
      assert exists p, v :: Given(rules, p, Cons(SPACE, name), v) && Matches(p, s, fnm);
    } else {
      forall p, v | Given(rules, p, Cons(SPACE, name), v)
        ensures !Matches(p, s, fnm)
      {
        NotGiven(rules, t, s, fnm, hits, Cons(SPACE, name), p, v);
      }
      assert !exists p, v :: Given(rules, p, Cons(SPACE, name), v) && Matches(p, s, fnm);
    }
  }

  /** What the traversal of the tree collects answers the lookup on the rules. */
  lemma LookupAnswered(rules: seq<Rule>, t: Tree, s: CStr, fnm: Fnmatch)
    requires TreeOfRules(rules, t) && Carries(s, fnm)
    ensures Answered(rules, s, fnm, AfterHits(map[], Search(t, s, 0, fnm)))
  {
    var hits := Search(t, s, 0, fnm);
    var found := AfterHits(map[], hits);
    forall name
      ensures name in found <==> exists p, v :: Given(rules, p, Cons(SPACE, name), v) && Matches(p, s, fnm)
      ensures name in found ==> found[name].Str? && Answer(rules, s, fnm, name, found[name].s)
    {
      NameAnswered(rules, t, s, fnm, hits, name);
    }
  }

  /** The trie maps what the rules give. */
  ghost predicate Holds(shape: Shape, rules: seq<Rule>) {
    forall p, k, v :: Radix.Maps(shape, p, k, v) <==> Given(rules, p, k, v)
  }

  lemma HoldsOneMore(shape: Shape, shape': Shape, rules: seq<Rule>, i: nat)
    requires i < |rules| && Holds(shape, rules[..i])
    requires Radix.Updated(shape, shape', rules[i].pattern, rules[i].key, rules[i].value)
    ensures Holds(shape', rules[..i + 1])
  {
    assert rules[..i + 1][..i] == rules[..i];
    forall p, k, v
      ensures Radix.Maps(shape', p, k, v) <==> Given(rules[..i + 1], p, k, v)
    {
      assert Radix.Maps(shape, p, k, v) <==> Given(rules[..i], p, k, v);
    }
  }

  lemma HoldsAll(shape: Shape, rules: seq<Rule>, n: nat)
    requires n == |rules| && Holds(shape, rules[..n])
    ensures Holds(shape, rules) && rules[..n] == rules
  {
    assert rules[..n] == rules;
  }

  /** What the strings of the rules can take in the string buffer at most. */
  function Volume(rules: seq<Rule>): nat {
    if rules == [] then 0
    else
      var n := |rules| - 1;
      Volume(rules[..n]) + |rules[n].pattern| + |rules[n].key| + |rules[n].value| + 3
  }

  lemma VolumeNext(rules: seq<Rule>, i: nat)
    requires i < |rules|
    ensures Volume(rules[..i + 1]) ==
            Volume(rules[..i]) + |rules[i].pattern| + |rules[i].key| + |rules[i].value| + 3
  {
    assert rules[..i + 1][..i] == rules[..i];
  }

  /** insert_data() */
  method InsertRule(trie: Trie, rules: seq<Rule>, i: nat)
    requires trie.Valid() && i < |rules| && Holds(trie.index.shape, rules[..i])
    requires PlainPatterns(rules, trie.signed) ==> trie.spare == {}
    modifies trie, trie.strings
    ensures trie.Valid() && Holds(trie.index.shape, rules[..i + 1])
    ensures PlainPatterns(rules, trie.signed) ==> trie.spare == {}
    ensures |trie.strings.buf| <=
            |old(trie.strings.buf)| + |rules[i].pattern| + |rules[i].key| + |rules[i].value| + 3
  {
    ghost var shape := trie.index.shape;
    trie.Insert(rules[i].pattern, rules[i].key, rules[i].value);
    HoldsOneMore(shape, trie.index.shape, rules, i);
  }

  /** The index in memory, rule by rule. */
  method Import(rules: seq<Rule>, signed: bool) returns (trie: Trie)
    ensures trie.Valid() && fresh(trie) && fresh(trie.strings)
    ensures Holds(trie.index.shape, rules) && |trie.strings.buf| <= 1 + Volume(rules)
    ensures PlainPatterns(rules, signed) ==> trie.spare == {}
  {
    trie := new Trie(signed);
    for i := 0 to |rules|
      invariant trie.Valid() && fresh(trie) && fresh(trie.strings) && trie.signed == signed
      invariant PlainPatterns(rules, signed) ==> trie.spare == {}
      invariant Holds(trie.index.shape, rules[..i]) && |trie.strings.buf| <= 1 + Volume(rules[..i])
    {
      VolumeNext(rules, i);
      InsertRule(trie, rules, i);
    }
    HoldsAll(trie.index.shape, rules, |rules|);
  }

  /** The index as a tree. */
  lemma TreeInMemory(rules: seq<Rule>, pool: seq<TrieNode>, index: Index, buf: seq<Byte>, spare: set<CStr>)
    returns (t: Tree)
    requires Linked(pool, index.at, index.paths, index.shape, buf)
    requires Radix.Valid(index.shape) && Radix.Compact(index.shape, spare) && Holds(index.shape, rules)
    ensures TreeOfRules(rules, t) && (spare == {} ==> BuiltFrom(rules, t)) && (ShortPatterns(rules) ==> Fits(t, 0))
    ensures HwdbStore.IsTree(pool, buf, index.at[[]], t)
  {
    TrieTree.TrieIsTree(pool, index, buf);
    t := TrieTree.TreeOf(index.shape, []);
    if spare == {} {
      TrieTree.TreeCompact(index.shape, []);
    }
    forall p, k, v
      ensures Maps(t, t.prefix, p, k, v) <==> Given(rules, p, k, v)
    {
      assert Radix.Maps(index.shape, p, k, v) <==> Given(rules, p, k, v);
    }
    if ShortPatterns(rules) {
      ShortRules(rules, index.shape);
      TreeFits(index.shape, [], spare);
    }
  }

  /** The size of the file: header, nodes and strings. */
  function FileSize(t: Tree, stringsLen: nat): nat {
    HEADER_SIZE + HwdbStore.TreeSize(t) + stringsLen
  }

  /**
    The part of adm_hwdb() that builds the index and stores it.  It fails only if the
    file would be too long, and the strings take no more than those of the rules.
    */
  method Update(rules: seq<Rule>, toolVersion: nat, signed: bool)
    returns (err: int, file: seq<Byte>, ghost t: Tree, ghost stringsLen: nat)
    requires toolVersion < TWO64
    ensures TreeOfRules(rules, t) && (PlainPatterns(rules, signed) ==> BuiltFrom(rules, t))
    ensures stringsLen <= 1 + Volume(rules) && (ShortPatterns(rules) ==> Fits(t, 0))
    ensures err == if FileSize(t, stringsLen) < 0x8000_0000_0000_0000 then 0 else -27
    ensures err == 0 ==> FileOf(file, t) && |file| == FileSize(t, stringsLen)
    ensures err == 0 ==> HeaderWritten(file, toolVersion, HwdbStore.TreeSize(t), stringsLen)
  {
    var trie := Import(rules, signed);
    t := TreeInMemory(rules, trie.pool, trie.index, trie.strings.buf, trie.spare);
    stringsLen := |trie.strings.buf|;
    trie.strings.Complete();
    var writer := new HwdbStore.TrieF(trie);
    err := writer.Store(toolVersion, t);
    file := writer.file;
  }

  lemma ShortRules(rules: seq<Rule>, shape: Shape)
    requires ShortPatterns(rules) && Holds(shape, rules)
    ensures ShortShape(shape)
  {
    forall a | a in shape && shape[a].pairs != []
      ensures |Radix.Full(a, shape)| + 1 < LINE_MAX
    {
      var (k, v) := shape[a].pairs[0];
      assert Radix.Maps(shape, Radix.Full(a, shape), k, v);
      GivenShort(rules, Radix.Full(a, shape), k, v);
    }
  }

  /** The file is of this version and spells out the tree. */
  ghost predicate FileOf(file: seq<Byte>, t: Tree) {
    && Recognized(file)
    && NodeSizeField(file) == 24 && ChildEntrySizeField(file) == 16 && ValueEntrySizeField(file) == 16
    && Stored(file, file, 0, RootOffField(file), t)
  }

  // ---- a lookup, with the bytes written out ----

  /** No '*', '?' or '['. */
  predicate Plain(s: CStr) {
    forall i :: 0 <= i < |s| ==> s[i] != 42 && s[i] != 63 && s[i] != 91
  }

  /** The first k bytes are the string's; then both end, or fnmatch() passes the rest from a '*', '?' or '[' on. */
  predicate FitsAt(pattern: CStr, k: nat, s: CStr, fnm: Fnmatch) {
    && k <= |pattern| && k <= |s| && pattern[..k] == s[..k]
    && if k == |pattern| then k == |s| else pattern[k] in {42, 63, 91} && fnm(pattern[k..], s[k..])
  }

  /** No byte above 127 from the second to the k-th, where such a byte is negative. */
  predicate Low(s: CStr, k: nat, signed: bool)
    requires k <= |s|
  {
    signed ==> forall q :: 1 <= q < k ==> s[q] < 128
  }

  /** The rule gives the property: its key is a space and the name. */
  predicate Gives(rules: seq<Rule>, r: nat, name: CStr) {
    r < |rules| && rules[r].key == [32] + name
  }

  /** No later rule has the same pattern and key. */
  ghost predicate Last(rules: seq<Rule>, r: nat)
    requires r < |rules|
  {
    forall q :: r < q < |rules| ==> rules[q].pattern != rules[r].pattern || rules[q].key != rules[r].key
  }

  /** A rule whose first special character is its k-th byte, or which has none and k bytes, is not missed. */
  ghost predicate RuleFound(rules: seq<Rule>, r: nat, k: nat, name: CStr, s: CStr, fnm: Fnmatch, signed: bool,
                            found: Properties)
    requires r < |rules|
  {
    Gives(rules, r, name) && FitsAt(rules[r].pattern, k, s, fnm) && Plain(s[..k]) && Low(s, k, signed) ==> name in found
  }

  /** The value is that of a rule, the last for its pattern and key, that fits. */
  ghost predicate ByRule(rules: seq<Rule>, name: CStr, s: CStr, fnm: Fnmatch, found: Properties)
    requires name in found
  {
    exists r: nat, k: nat :: Gives(rules, r, name) && Last(rules, r) && found[name] == UdevLists.Str(rules[r].value) &&
                   FitsAt(rules[r].pattern, k, s, fnm)
  }

  /** Of the rules that fit it is one with the most bytes in front of its special character, or the exact one. */
  ghost predicate ByLongest(rules: seq<Rule>, name: CStr, s: CStr, fnm: Fnmatch, found: Properties)
    requires name in found
  {
    exists r: nat, k: nat :: Gives(rules, r, name) && Last(rules, r) && found[name] == UdevLists.Str(rules[r].value) &&
                   FitsAt(rules[r].pattern, k, s, fnm) &&
                   forall q: nat, j: nat :: Gives(rules, q, name) && FitsAt(rules[q].pattern, j, s, fnm) ==>
                                    j <= k && (rules[q].pattern == s ==> rules[r].pattern == s)
  }

  /**
    What a lookup finds, on the rules and bytes alone: every rule that fits gives its
    property, every value comes from a rule that fits; and for a string without special
    characters it is the value of the rule with the longest literal head.
    */
  ghost predicate AsRulesSay(rules: seq<Rule>, s: CStr, fnm: Fnmatch, signed: bool, found: Properties) {
    && (forall r, k, name {:trigger RuleFound(rules, r, k, name, s, fnm, signed, found)} ::
          0 <= r < |rules| && 0 <= k ==> RuleFound(rules, r, k, name, s, fnm, signed, found))
    && (forall name :: name in found ==> ByRule(rules, name, s, fnm, found))
    && (Plain(s) && Low(s, |s|, signed) ==> forall name :: name in found ==> ByLongest(rules, name, s, fnm, found))
  }

  /** A pattern that fits behind a plain head matches. */
  lemma FitsMatches(pattern: CStr, k: nat, s: CStr, fnm: Fnmatch)
    requires FitsAt(pattern, k, s, fnm) && Plain(s[..k])
    ensures Matches(pattern, s, fnm) && HeadLen(pattern) == k
  {
    forall q | 0 <= q < k
      ensures !IsGlob(pattern[q])
    {
      assert pattern[..k][q] == s[..k][q];
    }
    HeadLenUnique(pattern, k);
  }

  lemma MatchesFits(pattern: CStr, s: CStr, fnm: Fnmatch)
    requires Matches(pattern, s, fnm)
    ensures FitsAt(pattern, HeadLen(pattern), s, fnm)
  {
    HeadLenFacts(pattern);
  }

  /** Rules given are those no later one replaces. */
  lemma {:induction false} GivenByLast(rules: seq<Rule>, pattern: CStr, key: CStr, value: CStr) returns (r: nat)
    requires Given(rules, pattern, key, value)
    ensures r < |rules| && Last(rules, r) && rules[r] == Rule(pattern, key, value)
    decreases |rules|
  {
    var n := |rules| - 1;
    if rules[n].pattern == pattern && rules[n].key == key {
      r := n;
    } else {
      r := GivenByLast(rules[..n], pattern, key, value);
    }
  }

  lemma {:induction false} GivenSome(rules: seq<Rule>, r: nat) returns (value: CStr)
    requires r < |rules|
    ensures Given(rules, rules[r].pattern, rules[r].key, value)
    decreases |rules|
  {
    var n := |rules| - 1;
    if rules[n].pattern == rules[r].pattern && rules[n].key == rules[r].key {
      value := rules[n].value;
    } else {
      value := GivenSome(rules[..n], r);
    }
  }

  lemma FittingRuleFound(rules: seq<Rule>, t: Tree, r: nat, k: nat, name: CStr, s: CStr, fnm: Fnmatch, signed: bool,
                         found: Properties)
    requires TreeOfRules(rules, t) && found == AfterHits(map[], SearchIn(t, s, 0, fnm, signed)) && r < |rules|
    ensures RuleFound(rules, r, k, name, s, fnm, signed, found)
  {
    if Gives(rules, r, name) && FitsAt(rules[r].pattern, k, s, fnm) && Plain(s[..k]) && Low(s, k, signed) {
      FitsMatches(rules[r].pattern, k, s, fnm);
      var v := GivenSome(rules, r);
      var w := PropertyOfHits(SearchIn(t, s, 0, fnm, signed), name);
      RootComplete(t, s, fnm, signed, Hit(rules[r].pattern, rules[r].key, v));
    }
  }

  lemma SourceFits(rules: seq<Rule>, s: CStr, fnm: Fnmatch, found: Properties, name: CStr)
    requires Sourced(rules, s, fnm, found) && name in found
    ensures ByRule(rules, name, s, fnm, found)
  {
    var p, k :| Given(rules, p, Cons(SPACE, name), found[name].s) && MatchesAt(p, s, k, fnm);
    var r := GivenByLast(rules, p, Cons(SPACE, name), found[name].s);
    assert Gives(rules, r, name) && FitsAt(rules[r].pattern, k, s, fnm);
  }

  lemma PlainHead(s: CStr, k: nat)
    requires Plain(s) && k <= |s|
    ensures Plain(s[..k])
  {
  }

  lemma PrevailsLonger(rules: seq<Rule>, s: CStr, fnm: Fnmatch, key: CStr, p: CStr, q: CStr, v: CStr)
    requires Prevails(rules, s, fnm, key, p) && Given(rules, q, key, v) && Matches(q, s, fnm)
    ensures HeadLen(q) <= HeadLen(p) && (q == s && GlobFree(s) ==> p == s)
  {
  }

  lemma NoLongerFits(rules: seq<Rule>, s: CStr, fnm: Fnmatch, name: CStr, p: CStr, q: nat, j: nat)
    requires Prevails(rules, s, fnm, Cons(SPACE, name), p) && Plain(s)
    requires Gives(rules, q, name) && FitsAt(rules[q].pattern, j, s, fnm)
    ensures j <= HeadLen(p) && (rules[q].pattern == s ==> p == s)
  {
    var v := GivenSome(rules, q);
    PlainHead(s, j);
    FitsMatches(rules[q].pattern, j, s, fnm);
    PrevailsLonger(rules, s, fnm, Cons(SPACE, name), p, rules[q].pattern, v);
  }

  lemma AnswerIsLongest(rules: seq<Rule>, s: CStr, fnm: Fnmatch, found: Properties, name: CStr)
    requires name in found && found[name].Str? && Answer(rules, s, fnm, name, found[name].s) && Plain(s)
    ensures ByLongest(rules, name, s, fnm, found)
  {
    var key, value := Cons(SPACE, name), found[name].s;
    var p :| Given(rules, p, key, value) && Matches(p, s, fnm) && Prevails(rules, s, fnm, key, p);
    var r := GivenByLast(rules, p, key, value);
    MatchesFits(p, s, fnm);
    forall q: nat, j: nat | Gives(rules, q, name) && FitsAt(rules[q].pattern, j, s, fnm)
      ensures j <= HeadLen(p) && (rules[q].pattern == s ==> p == s)
    {
      NoLongerFits(rules, s, fnm, name, p, q, j);
    }
    assert Gives(rules, r, name) && FitsAt(rules[r].pattern, HeadLen(p), s, fnm);
  }

  lemma LookupSays(rules: seq<Rule>, t: Tree, s: CStr, fnm: Fnmatch, signed: bool, found: Properties)
    requires TreeOfRules(rules, t) && found == AfterHits(map[], SearchIn(t, s, 0, fnm, signed))
    ensures AsRulesSay(rules, s, fnm, signed, found)
  {
    LookupFinds(rules, t, s, fnm, signed, found);
    forall r, k, name | 0 <= r < |rules| && 0 <= k
      ensures RuleFound(rules, r, k, name, s, fnm, signed, found)
    {
      FittingRuleFound(rules, t, r, k, name, s, fnm, signed, found);
    }
    forall name | name in found
      ensures ByRule(rules, name, s, fnm, found)
    {
      SourceFits(rules, s, fnm, found, name);
    }
    if Plain(s) && Low(s, |s|, signed) {
      forall name | name in found
        ensures ByLongest(rules, name, s, fnm, found)
      {
        AnswerIsLongest(rules, s, fnm, found, name);
      }
    }
  }

  /** A rule for a head, a special character and a tail is found for every string that fits. */
  lemma GlobRuleLookedUp(rules: seq<Rule>, head: CStr, c: Char, tail: CStr, rest: CStr, name: CStr, value: CStr,
                         fnm: Fnmatch, found: Properties)
    requires AsRulesSay(rules, head + rest, fnm, false, found)
    requires c in {42, 63, 91} && (forall i :: 0 <= i < |head| ==> head[i] !in {42, 63, 91}) && fnm([c] + tail, rest)
    requires Rule(head + [c] + tail, [32] + name, value) in rules
    ensures name in found
  {
    var r :| 0 <= r < |rules| && rules[r] == Rule(head + [c] + tail, [32] + name, value);
    var pattern, s := head + [c] + tail, head + rest;
    assert pattern[..|head|] == s[..|head|] == head && pattern[|head|..] == [c] + tail && s[|head|..] == rest;
    assert RuleFound(rules, r, |head|, name, s, fnm, false, found);
  }

  /** What a lookup in the tree of the rules finds. */
  lemma LookupFinds(rules: seq<Rule>, t: Tree, s: CStr, fnm: Fnmatch, signed: bool, found: Properties)
    requires TreeOfRules(rules, t) && found == AfterHits(map[], SearchIn(t, s, 0, fnm, signed))
    ensures Sourced(rules, s, fnm, found)
    ensures !signed || NoSign(s, 1, HeadLen(s)) ==> NoneMissed(rules, s, fnm, found)
    ensures (!signed || NoSign(s, 1, |s|)) && (GlobFree(s) || Carries(s, fnm)) ==> Answered(rules, s, fnm, found)
  {
    LookupBracketed(rules, t, s, fnm, signed);
    if !signed || NoSign(s, 1, |s|) {
      RootSame(t, s, fnm, signed);
      if GlobFree(s) {
        GlobFreeCarries(s, fnm);
      }
      if Carries(s, fnm) {
        LookupAnswered(rules, t, s, fnm);
      }
    }
  }

  /**
    Update, then look up: for a lookup string without special characters, or over which
    fnmatch() carries, the properties are those that the rules themselves give, by a
    plain scan over all of them.  Only a file too long makes it fail.
    */
  method UpdateAndLookup(rules: seq<Rule>, toolVersion: nat, modalias: CStr, fnm: Fnmatch, signed: bool)
    returns (err: int, hwdb: Hwdb?, ghost t: Tree, ghost stringsLen: nat)
    requires toolVersion < TWO64
    requires ShortPatterns(rules)
    ensures TreeOfRules(rules, t) && (PlainPatterns(rules, signed) ==> BuiltFrom(rules, t))
    ensures stringsLen <= 1 + Volume(rules)
    ensures err == if FileSize(t, stringsLen) < 0x8000_0000_0000_0000 then 0 else -27
    ensures err == 0 <==> hwdb != null
    ensures err == 0 ==> hwdb.Valid() && Sourced(rules, modalias, fnm, hwdb.properties.contents)
    ensures err == 0 && (!signed || NoSign(modalias, 1, HeadLen(modalias))) ==>
              NoneMissed(rules, modalias, fnm, hwdb.properties.contents)
    ensures err == 0 && (!signed || NoSign(modalias, 1, |modalias|)) &&
            (GlobFree(modalias) || Carries(modalias, fnm)) ==>
              Answered(rules, modalias, fnm, hwdb.properties.contents)
    ensures err == 0 ==> AsRulesSay(rules, modalias, fnm, signed, hwdb.properties.contents)
  {
    var file;
    hwdb := null;
    err, file, t, stringsLen := Update(rules, toolVersion, signed);
    if err == 0 {
      hwdb := Hwdb.New(file, fnm, signed);
      var _ := hwdb.GetProperties(modalias, t);
      LookupFinds(rules, t, modalias, fnm, signed, hwdb.properties.contents);
      LookupSays(rules, t, modalias, fnm, signed, hwdb.properties.contents);
    }
  }
}
