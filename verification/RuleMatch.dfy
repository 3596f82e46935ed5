/**
  Matching a key against a value (src/core/udev-rules.c): rule_add_key() sorts the
  pattern into one of five kinds, and match_key() has a faster way for each than
  trying its alternatives one by one with fnmatch().
  */
module RuleMatch {
  import opened CStrings
  import opened RuleTokens

  const BAR: Char := 124
  const UTIL_PATH_SIZE: nat := 1024
  const SOMETHING: CStr := [63, 42]

  datatype Glob = GlPlain | GlGlob | GlSplit | GlSplitGlob | GlSomething

  type Fnmatch = (CStr, CStr) -> bool

  /** string_is_glob() */
  predicate HasGlob(value: CStr) {
    exists i :: 0 <= i < |value| && value[i] in {42, 63, 91}
  }

  predicate HasSplit(value: CStr) {
    exists i :: 0 <= i < |value| && value[i] == BAR
  }

  /** The kind rule_add_key() gives a pattern. */
  function Kind(value: CStr): Glob {
    if HasSplit(value) && HasGlob(value) then GlSplitGlob
    else if HasSplit(value) then GlSplit
    else if HasGlob(value) then if value == SOMETHING then GlSomething else GlGlob
    else GlPlain
  }

  // ---- what a pattern means ----

  /** From i to j the pattern has one of its alternatives: a longest stretch without a bar. */
  ghost predicate IsAlternative(value: CStr, i: int, j: int) {
    && 0 <= i <= j <= |value|
    && (forall k :: i <= k < j ==> value[k] != 124)
    && (i == 0 || value[i - 1] == 124)
    && (j == |value| || value[j] == 124)
  }

  /** One alternative of a pattern: with special characters anywhere in the pattern it is for fnmatch(). */
  ghost predicate Fits(value: CStr, alternative: CStr, val: CStr, fnm: Fnmatch) {
    if exists i :: 0 <= i < |value| && (value[i] == 42 || value[i] == 63 || value[i] == 91) then fnm(alternative, val)
    else alternative == val
  }

  ghost predicate Means(value: CStr, val: CStr, fnm: Fnmatch) {
    exists i, j :: IsAlternative(value, i, j) && Fits(value, value[i..j], val, fnm)
  }

  // ---- match_key() ----

  /** strchr(&value[i], '|'), the end of the string if there is none. */
  method FindBar(value: CStr, i: nat) returns (j: nat)
    requires i <= |value|
    ensures i <= j <= |value| && (j == |value| || value[j] == BAR)
    ensures forall k :: i <= k < j ==> value[k] != BAR
  {
    j := i;
    while j < |value| && value[j] != BAR
      invariant i <= j <= |value|
      invariant forall k :: i <= k < j ==> value[k] != BAR
    {
      j := j + 1;
    }
  }

  /** An alternative that begins behind the one from i to j begins behind its bar. */
  lemma NextAlternative(value: CStr, i: int, j: int, i': int, j': int)
    requires IsAlternative(value, i, j) && IsAlternative(value, i', j') && i <= i'
    ensures (i' == i && j' == j) || (j < |value| && j + 1 <= i')
  {
    if i' == i {
      if j' < j || j < j' {
        assert false;
      }
    } else if i' <= j {
      assert false;
    }
  }

  lemma OnlyAlternative(value: CStr, i: int, j: int)
    requires IsAlternative(value, i, j)
    ensures HasSplit(value) || (i == 0 && j == |value|)
  {
    if i > 0 {
      assert value[i - 1] == BAR;
    } else if j < |value| {
      assert value[j] == BAR;
    }
  }

  /** No alternative that begins before i fits. */
  ghost predicate NoneBefore(value: CStr, i: int, val: CStr, p: (CStr, CStr) -> bool) {
    forall i', j' :: IsAlternative(value, i', j') && i' < i ==> !p(value[i'..j'], val)
  }

  lemma NoneSoFar(value: CStr, i: int, j: int, val: CStr, p: (CStr, CStr) -> bool)
    requires IsAlternative(value, i, j) && NoneBefore(value, i, val, p) && !p(value[i..j], val)
    ensures NoneBefore(value, j + 1, val, p)
    ensures j == |value| ==> forall i', j' :: IsAlternative(value, i', j') ==> !p(value[i'..j'], val)
  {
    forall i', j' | IsAlternative(value, i', j') && (i' < j + 1 || j == |value|)
      ensures !p(value[i'..j'], val)
    {
      if i <= i' {
        NextAlternative(value, i, j, i', j');
      }
    }
  }

  /** The loop of GL_SPLIT, and of GL_SPLIT_GLOB: alternative by alternative up to one that fits. */
  method TryAlternatives(value: CStr, val: CStr, p: (CStr, CStr) -> bool) returns (found: bool)
    ensures found <==> exists i, j :: IsAlternative(value, i, j) && p(value[i..j], val)
  {
    var i := 0;
    while true
      invariant i <= |value| && (i == 0 || value[i - 1] == BAR)
      invariant NoneBefore(value, i, val, p)
      decreases |value| - i
    {
      var next := FindBar(value, i);
      assert IsAlternative(value, i, next);
      if p(value[i..next], val) {
        return true;
      }
      NoneSoFar(value, i, next, val, p);
      if next == |value| {
        return false;
      }
      i := next + 1;
    }
  }

  /** What strscpy() leaves of a string in a buffer of UTIL_PATH_SIZE. */
  function Copied(value: CStr): CStr {
    if |value| < UTIL_PATH_SIZE then value else value[..UTIL_PATH_SIZE - 1]
  }

  function Same(): (CStr, CStr) -> bool {
    (a: CStr, b: CStr) => a == b
  }

  /** What match_key() compares with: of a long pattern with bars and special characters only the beginning. */
  ghost predicate MeansCut(value: CStr, val: CStr, fnm: Fnmatch) {
    if Kind(value) == GlSplitGlob then
      exists i, j :: IsAlternative(Copied(value), i, j) && fnm(Copied(value)[i..j], val)
    else Means(value, val, fnm)
  }

  lemma ShortMeans(value: CStr, val: CStr, fnm: Fnmatch)
    ensures |value| < UTIL_PATH_SIZE || Kind(value) != GlSplitGlob ==>
              (MeansCut(value, val, fnm) <==> Means(value, val, fnm))
  {
  }

  ghost predicate Alternative(value: CStr, a: CStr) {
    exists i, j :: IsAlternative(value, i, j) && value[i..j] == a
  }

  /** Cutting the pattern off leaves it the same alternatives. */
  ghost predicate SameAlternatives(value: CStr) {
    forall a :: Alternative(Copied(value), a) <==> Alternative(value, a)
  }

  lemma MeansAlternative(value: CStr, val: CStr, fnm: Fnmatch)
    requires HasGlob(value)
    ensures Means(value, val, fnm) <==> exists a :: Alternative(value, a) && fnm(a, val)
  {
    if Means(value, val, fnm) {
      var i, j :| IsAlternative(value, i, j) && Fits(value, value[i..j], val, fnm);
      assert Alternative(value, value[i..j]);
    }
  }

  lemma MeansCutAlternative(value: CStr, val: CStr, fnm: Fnmatch)
    requires Kind(value) == GlSplitGlob
    ensures MeansCut(value, val, fnm) <==> exists a :: Alternative(Copied(value), a) && fnm(a, val)
  {
    if MeansCut(value, val, fnm) {
      var i, j :| IsAlternative(Copied(value), i, j) && fnm(Copied(value)[i..j], val);
      assert Alternative(Copied(value), Copied(value)[i..j]);
    }
  }

  function Only(a: CStr): Fnmatch {
    (pattern: CStr, val: CStr) => pattern == a
  }

  ghost predicate AlwaysMeans(value: CStr) {
    forall val: CStr, fnm: Fnmatch {:trigger Means(value, val, fnm)} ::
      MeansCut(value, val, fnm) <==> Means(value, val, fnm)
  }

  /**
    A pattern with bars and special characters is matched as it is written, for every
    value and whatever fnmatch() does, exactly when its first 1023 characters have its
    alternatives.
    */
  lemma CutExactly(value: CStr)
    requires Kind(value) == GlSplitGlob
    ensures AlwaysMeans(value) <==> SameAlternatives(value)
  {
    if SameAlternatives(value) {
      forall val: CStr, fnm: Fnmatch
        ensures MeansCut(value, val, fnm) <==> Means(value, val, fnm)
      {
        MeansAlternative(value, val, fnm);
        MeansCutAlternative(value, val, fnm);
        assert forall a :: Alternative(Copied(value), a) <==> Alternative(value, a);
      }
    } else {
      var a :| Alternative(Copied(value), a) != Alternative(value, a);
      MeansAlternative(value, [], Only(a));
      MeansCutAlternative(value, [], Only(a));
      assert Only(a)(a, []);
      assert !(MeansCut(value, [], Only(a)) <==> Means(value, [], Only(a)));
    }
  }

  /** A pattern of 1024 or more characters can lose the alternative that would have matched. */
  lemma LongPatternCut(value: CStr, head: CStr, val: CStr, fnm: Fnmatch)
    requires |head| == 1023 && (forall k :: 0 <= k < |head| ==> head[k] != 124)
    requires value == head + [124, 42] && fnm([42], val) && !fnm(head, val)
    ensures Means(value, val, fnm) && !MeansCut(value, val, fnm)
  {
    var n := |head| + 1;
    assert value[|head|] == BAR && value[n] == 42;
    assert IsAlternative(value, n, |value|) && value[n..|value|] == [42];
    assert Copied(value) == head;
    forall i, j | IsAlternative(head, i, j)
      ensures head[i..j] == head
    {
      OnlyAlternative(head, i, j);
    }
  }

  /** match_key(), its verdict before OP_MATCH or OP_NOMATCH is looked at. */
  method MatchValue(glob: Glob, value: CStr, val: CStr, fnm: Fnmatch) returns (found: bool)
    requires glob == Kind(value)
    requires forall v :: fnm([63, 42], v) <==> v != []
    ensures found <==> MeansCut(value, val, fnm)
  {
    match glob
    case GlPlain =>
      found := value == val;
      Whole(value, val, fnm);
    case GlGlob =>
      found := fnm(value, val);
      Whole(value, val, fnm);
    case GlSplit =>
      found := TryAlternatives(value, val, Same());
    case GlSplitGlob =>
      found := TryAlternatives(Copied(value), val, fnm);
    case GlSomething =>
      found := val != [];
      Whole(value, val, fnm);
  }

  /** A pattern without bars has itself as its only alternative. */
  lemma Whole(value: CStr, val: CStr, fnm: Fnmatch)
    requires !HasSplit(value)
    ensures Means(value, val, fnm) <==> Fits(value, value, val, fnm)
  {
    assert IsAlternative(value, 0, |value|) && value[0..|value|] == value;
    forall i, j | IsAlternative(value, i, j)
      ensures value[i..j] == value
    {
      OnlyAlternative(value, i, j);
    }
  }

  /** match_key(): 0 when the key passes. */
  method MatchKey(key: Key, glob: Glob, val: CStr, fnm: Fnmatch) returns (r: int)
    requires glob == Kind(key.value)
    requires forall v :: fnm([63, 42], v) <==> v != []
    ensures r == 0 || r == -1
    ensures r == 0 <==> (key.op == OpMatch && MeansCut(key.value, val, fnm)) ||
                        (key.op == OpNoMatch && !MeansCut(key.value, val, fnm))
    ensures |key.value| < 1024 ==> (MeansCut(key.value, val, fnm) <==> Means(key.value, val, fnm))
  {
    ShortMeans(key.value, val, fnm);
    var found := MatchValue(glob, key.value, val, fnm);
    if found && key.op == OpMatch {
      return 0;
    }
    if !found && key.op == OpNoMatch {
      return 0;
    }
    return -1;
  }
}
