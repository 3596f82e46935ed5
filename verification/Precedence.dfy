/**
  The order in which a lookup finds its patterns.  A property set later replaces one
  set earlier, so this order decides which pattern's value is returned.
  */
module Precedence {
  import opened CStrings
  import opened PatternTree
  import opened LookupSpec

  /** Longer literal heads rank higher; a pattern without special characters highest of its length. */
  function Rank(pattern: CStr): nat {
    2 * HeadLen(pattern) + if HeadLen(pattern) == |pattern| then 1 else 0
  }

  ghost predicate Nondecreasing(hits: seq<Hit>) {
    forall a, b :: 0 <= a < b < |hits| ==> Rank(hits[a].pattern) <= Rank(hits[b].pattern)
  }

  ghost predicate RanksWithin(hits: seq<Hit>, low: nat, high: nat) {
    forall h :: h in hits ==> low <= Rank(h.pattern) <= high
  }

  ghost predicate RanksFrom(hits: seq<Hit>, low: nat) {
    forall h :: h in hits ==> low <= Rank(h.pattern)
  }

  lemma ConcatNondecreasing(a: seq<Hit>, b: seq<Hit>, m: nat)
    requires RanksWithin(a, m, m) && RanksFrom(b, m) && Nondecreasing(b)
    ensures Nondecreasing(a + b) && RanksFrom(a + b, m)
  {
    var hits := a + b;
    forall x, y | 0 <= x < y < |hits|
      ensures Rank(hits[x].pattern) <= Rank(hits[y].pattern)
    {
      if x < |a| {
        assert hits[x] in a;
        assert hits[y] in a || hits[y] in b;
      } else {
        assert hits[x] == b[x - |a|] && hits[y] == b[y - |a|];
      }
    }
  }

  lemma SameRanks(hits: seq<Hit>, m: nat)
    requires RanksWithin(hits, m, m)
    ensures Nondecreasing(hits) && RanksFrom(hits, m)
  {
  }

  /** How far into the string's own head a match at j reaches. */
  function Reach(s: CStr, j: nat): nat {
    if j < HeadLen(s) then j else HeadLen(s)
  }

  /** A pattern that turns special at j, after a part of the search string, ranks by where its head ends. */
  lemma GlobRank(pattern: CStr, s: CStr, j: nat, fnm: Fnmatch)
    requires MatchesAt(pattern, s, j, fnm) && j < |pattern|
    ensures Rank(pattern) == 2 * Reach(s, j)
  {
    HeadWhereItMatches(pattern, s, j, fnm);
  }

  lemma ExactRank(s: CStr)
    requires GlobFree(s)
    ensures Rank(s) == 2 * |s| + 1
  {
    HeadLenUnique(s, |s|);
  }

  lemma GlobKidsRanks(t: Tree, s: CStr, j: nat, fnm: Fnmatch)
    requires Ordered(t) && j <= |s|
    ensures RanksWithin(GlobKids(t, s, j, fnm), 2 * Reach(s, j), 2 * Reach(s, j))
  {
    forall h | h in GlobKids(t, s, j, fnm)
      ensures Rank(h.pattern) == 2 * Reach(s, j)
    {
      GlobKidsHits(t, s, j, fnm, h);
      var k :| 0 <= k < |t.kids| && IsGlob(t.kids[k].c) &&
               Maps(t.kids[k].tree, KidFull(t, k, s, j), h.pattern, h.key, h.value);
      NextChar(t, k, s, j, h);
      GlobRank(h.pattern, s, j, fnm);
    }
  }

  lemma PrefixRanks(t: Tree, s: CStr, i: nat, fnm: Fnmatch)
    requires Ordered(t) && i <= |s| && Literal(t.prefix, s, i) < |t.prefix|
    ensures var m := 2 * Reach(s, i + Literal(t.prefix, s, i));
            RanksWithin(Search(t, s, i, fnm), m, m)
  {
    var p := Literal(t.prefix, s, i);
    forall h | h in Search(t, s, i, fnm)
      ensures Rank(h.pattern) == 2 * Reach(s, i + p)
    {
      StepInside(t, s, i, fnm, h);
      MapsPrefix(t, s[..i] + t.prefix, h.pattern, h.key, h.value);
      GlobRank(h.pattern, s, i + p, fnm);
    }
  }

  /** A lookup finds its patterns in the order of their rank. */
  lemma {:induction false} SearchNondecreasing(t: Tree, s: CStr, i: nat, fnm: Fnmatch)
    requires Ordered(t) && i <= |s|
    ensures Nondecreasing(Search(t, s, i, fnm)) && RanksFrom(Search(t, s, i, fnm), 2 * Reach(s, i))
    decreases t, 1
  {
    var p := Literal(t.prefix, s, i);
    var j := i + p;
    if p < |t.prefix| {
      PrefixRanks(t, s, i, fnm);
      SameRanks(Search(t, s, i, fnm), 2 * Reach(s, j));
    } else {
      SearchPast(t, s, i, j, fnm);
      GlobKidsRanks(t, s, j, fnm);
      OnwardNondecreasing(t, s, j, fnm);
      ConcatNondecreasing(GlobKids(t, s, j, fnm), Onward(t, s, j, fnm), 2 * Reach(s, j));
    }
  }

  lemma {:induction false} OnwardNondecreasing(t: Tree, s: CStr, j: nat, fnm: Fnmatch)
    requires Ordered(t) && j <= |s|
    ensures Nondecreasing(Onward(t, s, j, fnm)) && RanksFrom(Onward(t, s, j, fnm), 2 * Reach(s, j))
    decreases t, 0
  {
    if j == |s| {
      forall h | h in PairHits(s, t.pairs, |t.pairs|)
        ensures h.pattern == s
      {
        AllPairHits(s, t.pairs, h);
      }
      SameRanks(PairHits(s, t.pairs, |t.pairs|), Rank(s));
    } else {
      var k := KidIndex(t.kids, s[j]);
      if k < |t.kids| {
        SearchNondecreasing(t.kids[k].tree, s, j + 1, fnm);
      }
    }
  }

  /** The last hit for a key: the one whose value is left after each has replaced the one before. */
  ghost predicate IsWinner(hits: seq<Hit>, w: nat, key: CStr) {
    && w < |hits|
    && hits[w].key == key
    && forall b :: w < b < |hits| ==> hits[b].key != key
  }

  lemma LastRanksHighest(hits: seq<Hit>, w: nat, h: Hit)
    requires Nondecreasing(hits) && IsWinner(hits, w, h.key) && h in hits
    ensures Rank(h.pattern) <= Rank(hits[w].pattern)
  {
    var a :| 0 <= a < |hits| && hits[a] == h;
    assert a <= w;
  }

  /** Of two matching patterns the higher ranked has the longer head, and an exact one only an exact one outranks. */
  lemma RankMeans(p: CStr, q: CStr, s: CStr, fnm: Fnmatch)
    requires Matches(q, s, fnm) && Rank(p) <= Rank(q)
    ensures HeadLen(p) <= HeadLen(q)
    ensures p == s && GlobFree(s) ==> q == s
  {
    if p == s && GlobFree(s) {
      ExactRank(s);
      assert q[..HeadLen(q)] == q;
      assert Head(s, |s|) == s;
    }
  }

  /**
    The value returned for a key comes from a matching pattern with the longest literal
    head of all that give the key, and from the search string itself if that is one and
    has no special characters.
    */
  lemma WinnerOutranks(t: Tree, s: CStr, fnm: Fnmatch, hits: seq<Hit>, w: nat, h: Hit)
    requires Ordered(t) && Carries(s, fnm) && hits == Search(t, s, 0, fnm)
    requires IsWinner(hits, w, h.key)
    requires Maps(t, t.prefix, h.pattern, h.key, h.value) && Matches(h.pattern, s, fnm)
    ensures HeadLen(h.pattern) <= HeadLen(hits[w].pattern)
    ensures h.pattern == s && GlobFree(s) ==> hits[w].pattern == s
  {
    SearchExact(t, s, fnm, h);
    SearchExact(t, s, fnm, hits[w]);
    SearchNondecreasing(t, s, 0, fnm);
    LastRanksHighest(hits, w, h);
    RankMeans(h.pattern, hits[w].pattern, s, fnm);
  }
}
