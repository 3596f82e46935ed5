/**
  Compiling rules to one array of tokens (src/core/udev-rules.c): each rule becomes a
  TK_RULE token and its keys sorted by type; GOTO names become token indices.
  */
module RuleCompiler {
  import opened CStrings
  import opened RuleTokens

  datatype Token =
    | RuleToken(canSetName: bool, hasStaticNode: bool, tokenCount: nat, name: CStr)
    | KeyToken(key: Key, goto: nat)
    | EndToken

  function Type(t: Token): nat {
    match t
    case RuleToken(_, _, _, _) => TK_RULE
    case KeyToken(key, _) => key.ty
    case EndToken => TK_END
  }

  const MAX_TK: nat := 64

  /** The first n keys as they are added: not linked yet. */
  function Emitted(keys: seq<Key>, n: nat): (tokens: seq<Token>)
    requires n <= |keys|
    ensures |tokens| == n
  {
    if n == 0 then [] else Emitted(keys, n - 1) + [KeyToken(keys[n - 1], 0)]
  }

  lemma {:induction false} EmittedAt(keys: seq<Key>, n: nat, k: nat)
    requires k < n <= |keys|
    ensures Emitted(keys, n)[k] == KeyToken(keys[k], 0)
    decreases n
  {
    if k < n - 1 {
      EmittedAt(keys, n - 1, k);
    }
  }

  // ---- the keys not yet marked as done ----

  function Live(keys: seq<Key>, n: nat): (live: seq<Key>)
    requires n <= |keys|
    ensures |live| <= n
  {
    if n == 0 then []
    else Live(keys, n - 1) + if keys[n - 1].ty != TK_UNSET then [keys[n - 1]] else []
  }

  lemma {:induction false} AllLive(keys: seq<Key>, n: nat)
    requires n <= |keys| && forall k :: 0 <= k < n ==> keys[k].ty != TK_UNSET
    ensures Live(keys, n) == keys[..n]
    decreases n
  {
    if n > 0 {
      AllLive(keys, n - 1);
      assert keys[..n] == keys[..n - 1] + [keys[n - 1]];
    }
  }

  lemma {:induction false} NoneLive(keys: seq<Key>, n: nat)
    requires n <= |keys| && forall k :: 0 <= k < n ==> keys[k].ty == TK_UNSET
    ensures Live(keys, n) == []
    decreases n
  {
    if n > 0 {
      NoneLive(keys, n - 1);
    }
  }

  lemma {:induction false} SameLive(keys: seq<Key>, keys': seq<Key>, n: nat)
    requires n <= |keys| && n <= |keys'| && forall k :: 0 <= k < n ==> keys[k] == keys'[k]
    ensures Live(keys, n) == Live(keys', n)
    decreases n
  {
    if n > 0 {
      SameLive(keys, keys', n - 1);
    }
  }

  lemma WithoutLast(live: seq<Key>, key: Key)
    ensures Without(live + [key], |live|) == live
  {
  }

  lemma WithoutBefore(live: seq<Key>, key: Key, p: nat)
    requires p < |live|
    ensures Without(live + [key], p) == Without(live, p) + [key]
  {
  }

  /** Marking a live key takes it out, at the position its live predecessors give. */
  lemma {:induction false} LiveMarked(keys: seq<Key>, n: nat, m: nat, mark: Key)
    requires m < n <= |keys| && keys[m].ty != TK_UNSET && mark.ty == TK_UNSET
    ensures var p := |Live(keys, m)|;
            && p < |Live(keys, n)| && Live(keys, n)[p] == keys[m]
            && Live(keys[m := mark], n) == Without(Live(keys, n), p)
    decreases n
  {
    var live := Live(keys, n - 1);
    if m == n - 1 {
      SameLive(keys, keys[m := mark], m);
      WithoutLast(live, keys[m]);
    } else {
      LiveMarked(keys, n - 1, m, mark);
      if keys[n - 1].ty != TK_UNSET {
        WithoutBefore(live, keys[n - 1], |Live(keys, m)|);
      }
    }
  }

  /** What holds of all keys that are not marked holds of the live ones. */
  lemma {:induction false} LiveAbove(keys: seq<Key>, n: nat, low: nat)
    requires n <= |keys| && forall k :: 0 <= k < n && keys[k].ty != TK_UNSET ==> low <= keys[k].ty
    ensures forall k :: 0 <= k < |Live(keys, n)| ==> low <= Live(keys, n)[k].ty
    decreases n
  {
    if n > 0 {
      LiveAbove(keys, n - 1, low);
    }
  }

  lemma {:induction false} LivePrefix(keys: seq<Key>, m: nat, n: nat)
    requires m <= n <= |keys|
    ensures |Live(keys, m)| <= |Live(keys, n)|
    ensures Live(keys, n)[..|Live(keys, m)|] == Live(keys, m)
    decreases n
  {
    if m < n {
      LivePrefix(keys, m, n - 1);
    }
  }

  /** The first live key with the smallest type is the one sorting takes first. */
  lemma FirstLive(keys: seq<Key>, n: nat, m: nat, mark: Key)
    requires m < n <= |keys| && keys[m].ty != TK_UNSET && mark.ty == TK_UNSET
    requires forall k :: 0 <= k < n && keys[k].ty != TK_UNSET ==> keys[m].ty <= keys[k].ty
    requires forall k :: 0 <= k < m && keys[k].ty != TK_UNSET ==> keys[m].ty < keys[k].ty
    ensures Sorted(Live(keys, n)) == [keys[m]] + Sorted(Live(keys[m := mark], n))
  {
    var live, p := Live(keys, n), |Live(keys, m)|;
    LiveMarked(keys, n, m, mark);
    LiveAbove(keys, n, keys[m].ty);
    LiveAbove(keys, m, keys[m].ty + 1);
    LivePrefix(keys, m, n);
    forall q | 0 <= q < p
      ensures keys[m].ty < live[q].ty
    {
      assert live[q] == live[..p][q];
    }
    MinIndexFacts(live, |live|);
    assert MinIndex(live, |live|) == p;
  }

  /** What is left to emit, before an iteration of sort_token(). */
  ghost predicate Window(keys: seq<Key>, n: nat, start: nat, end: nat) {
    && start <= end + 1 && start <= n && end <= n <= |keys|
    && (forall k :: 0 <= k < start ==> keys[k].ty == TK_UNSET)
    && (forall k :: end <= k < n ==> keys[k].ty == TK_UNSET)
  }

  /** The keys still to be emitted are those from the i-th on. */
  ghost predicate Pending(keys: seq<Key>, n: nat, sorted: seq<Key>, i: nat)
    requires n <= |keys|
  {
    i <= |sorted| && Sorted(Live(keys, n)) == sorted[i..]
  }

  /** Marking the key at either end of the window moves that end. */
  lemma WindowShrinks(keys: seq<Key>, n: nat, start: nat, end: nat, m: nat, mark: Key)
    requires Window(keys, n, start, end) && start <= m < end && mark.ty == TK_UNSET
    ensures Window(keys[m := mark], n, if m == start then start + 1 else start, if m + 1 == end then end - 1 else end)
  {
  }

  lemma PendingAll(keys: seq<Key>, n: nat)
    requires n <= |keys| && AllKeys(keys[..n])
    ensures Pending(keys, n, Sorted(keys[..n]), 0)
  {
    forall k | 0 <= k < n
      ensures keys[k].ty != TK_UNSET
    {
      assert IsKey(keys[..n][k]);
    }
    AllLive(keys, n);
  }

  lemma PendingMarked(keys: seq<Key>, n: nat, m: nat, mark: Key, sorted: seq<Key>, i: nat)
    requires m < n <= |keys| && keys[m].ty != TK_UNSET && mark.ty == TK_UNSET
    requires forall k :: 0 <= k < n && keys[k].ty != TK_UNSET ==> keys[m].ty <= keys[k].ty
    requires forall k :: 0 <= k < m && keys[k].ty != TK_UNSET ==> keys[m].ty < keys[k].ty
    requires Pending(keys, n, sorted, i)
    ensures i < |sorted| && sorted[i] == keys[m] && Pending(keys[m := mark], n, sorted, i + 1)
  {
    FirstLive(keys, n, m, mark);
    assert sorted[i..][1..] == sorted[i + 1..];
  }

  lemma EmittedNext(before: seq<Token>, sorted: seq<Key>, i: nat)
    requires i < |sorted|
    ensures (before + Emitted(sorted, i)) + [KeyToken(sorted[i], 0)] == before + Emitted(sorted, i + 1)
  {
  }

  /** A rule while its line is read. */
  class RuleTmp {
    var canSetName: bool
    var hasStaticNode: bool
    var name: CStr
    const token: array<Key>
    var tokenCur: nat

    ghost predicate Valid()
      reads this
    {
      token.Length == MAX_TK && tokenCur <= MAX_TK
    }

    ghost function Keys(): seq<Key>
      requires Valid()
      reads this, token
    {
      token[..tokenCur]
    }

    constructor (canSetName: bool, hasStaticNode: bool, name: CStr)
      ensures Valid() && fresh(token) && Keys() == []
      ensures this.canSetName == canSetName && this.hasStaticNode == hasStaticNode && this.name == name
    {
      this.canSetName, this.hasStaticNode, this.name := canSetName, hasStaticNode, name;
      token := new Key[MAX_TK](_ => Key(TK_UNSET, OpUnset, [], [], 0));
      tokenCur := 0;
    }

    /** rule_add_key() */
    method AddKey(key: Key)
      requires Valid() && tokenCur < MAX_TK && IsKey(key)
      modifies this`tokenCur, token
      ensures Valid() && Keys() == old(Keys()) + [key]
    {
      token[tokenCur] := key;
      tokenCur := tokenCur + 1;
    }

    /** A key that is emitted. */
    method Mark(i: nat)
      requires i < token.Length
      modifies token
      ensures token[..] == old(token[..])[i := old(token[i]).(ty := TK_UNSET)]
    {
      token[i] := token[i].(ty := TK_UNSET);
    }
  }

  class Rules {
    var tokens: array<Token>
    var tokenCur: nat

    ghost predicate Valid()
      reads this
    {
      tokenCur <= tokens.Length
    }

    ghost function Contents(): seq<Token>
      requires Valid()
      reads this, tokens
    {
      tokens[..tokenCur]
    }

    /** rules_new() */
    constructor (size: nat)
      ensures Valid() && fresh(tokens) && Contents() == []
    {
      tokens := new Token[size](_ => EndToken);
      tokenCur := 0;
    }

    /** add_token(): the array grows by half or doubles when the token would fill it. */
    method AddToken(token: Token)
      requires Valid()
      modifies this, tokens
      ensures Valid() && (tokens == old(tokens) || fresh(tokens))
      ensures Contents() == old(Contents()) + [token]
    {
      if tokenCur + 1 >= tokens.Length {
        var add := tokens.Length;
        if add < 8 {
          add := 8;
        }
        var grown := new Token[tokens.Length + add];
        forall i | 0 <= i < tokenCur {
          grown[i] := tokens[i];
        }
        tokens := grown;
      }
      tokens[tokenCur] := token;
      tokenCur := tokenCur + 1;
    }

    /** The scan of sort_token() for the first live key with the smallest type. */
    static method FindSmallest(tmp: RuleTmp, start: nat, end: nat) returns (nextIdx: nat)
      requires tmp.Valid() && Window(tmp.token[..], tmp.tokenCur, start, end)
      requires Live(tmp.token[..], tmp.tokenCur) != []
      ensures start <= nextIdx < end && tmp.token[nextIdx].ty != TK_UNSET
      ensures forall k :: 0 <= k < tmp.tokenCur && tmp.token[k].ty != TK_UNSET ==>
                tmp.token[nextIdx].ty <= tmp.token[k].ty
      ensures forall k :: 0 <= k < nextIdx && tmp.token[k].ty != TK_UNSET ==> tmp.token[nextIdx].ty < tmp.token[k].ty
    {
      var nextVal := TK_UNSET;
      nextIdx := 0;
      if start >= end {
        NoneLive(tmp.token[..], tmp.tokenCur);
        assert false;
      }
      for j := start to end
        invariant nextVal == TK_UNSET ==> forall k :: start <= k < j ==> tmp.token[k].ty == TK_UNSET
        invariant nextVal != TK_UNSET ==>
                    && start <= nextIdx < j && tmp.token[nextIdx].ty == nextVal
                    && (forall k :: start <= k < j && tmp.token[k].ty != TK_UNSET ==> nextVal <= tmp.token[k].ty)
                    && (forall k :: start <= k < nextIdx && tmp.token[k].ty != TK_UNSET ==> nextVal < tmp.token[k].ty)
      {
        if tmp.token[j].ty == TK_UNSET {
          continue;
        }
        if nextVal == TK_UNSET || tmp.token[j].ty < nextVal {
          nextVal := tmp.token[j].ty;
          nextIdx := j;
        }
      }
      if nextVal == TK_UNSET {
        NoneLive(tmp.token[..], tmp.tokenCur);
        assert false;
      }
    }

    /** One turn of sort_token(): emit the smallest live key, mark it, shrink the window past it. */
    method EmitSmallest(tmp: RuleTmp, start: nat, end: nat, ghost sorted: seq<Key>, ghost i: nat)
      returns (start': nat, end': nat)
      requires Valid() && tmp.Valid() && Window(tmp.token[..], tmp.tokenCur, start, end)
      requires i < |sorted| && Pending(tmp.token[..], tmp.tokenCur, sorted, i)
      modifies this, tokens, tmp.token
      ensures Valid() && (tokens == old(tokens) || fresh(tokens))
      ensures Window(tmp.token[..], tmp.tokenCur, start', end')
      ensures Pending(tmp.token[..], tmp.tokenCur, sorted, i + 1)
      ensures Contents() == old(Contents()) + [KeyToken(sorted[i], 0)]
    {
      start', end' := start, end;
      var nextIdx := FindSmallest(tmp, start, end);
      ghost var keys, mark := tmp.token[..], tmp.token[nextIdx].(ty := TK_UNSET);
      PendingMarked(keys, tmp.tokenCur, nextIdx, mark, sorted, i);
      WindowShrinks(keys, tmp.tokenCur, start, end, nextIdx, mark);
      AddToken(KeyToken(tmp.token[nextIdx], 0));
      tmp.Mark(nextIdx);
      if nextIdx == start' {
        start' := start' + 1;
      }
      if nextIdx + 1 == end' {
        end' := end' - 1;
      }
    }

    /** sort_token(): selection sort; emitted keys are marked and the window shrinks past them. */
    method SortToken(tmp: RuleTmp)
      requires Valid() && tmp.Valid() && AllKeys(tmp.Keys())
      modifies this, tokens, tmp.token
      ensures Valid() && (tokens == old(tokens) || fresh(tokens))
      ensures Contents() == old(Contents()) + Emitted(Sorted(old(tmp.Keys())), tmp.tokenCur)
    {
      ghost var sorted := Sorted(tmp.Keys());
      var start, end := 0, tmp.tokenCur;
      assert tmp.token[..][..tmp.tokenCur] == tmp.Keys();
      PendingAll(tmp.token[..], tmp.tokenCur);
      for i := 0 to tmp.tokenCur
        invariant Valid() && (tokens == old(tokens) || fresh(tokens))
        invariant Window(tmp.token[..], tmp.tokenCur, start, end)
        invariant Pending(tmp.token[..], tmp.tokenCur, sorted, i)
        invariant Contents() == old(Contents()) + Emitted(sorted, i)
      {
        EmittedNext(old(Contents()), sorted, i);
        start, end := EmitSmallest(tmp, start, end, sorted, i);
      }
    }
  }
}
