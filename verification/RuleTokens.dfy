/**
  The keys of udev rules as tokens (src/core/udev-rules.c), and the order in which
  the compiler emits the keys of a rule.
  */
module RuleTokens {
  import opened CStrings

  // enum token_type: the keys of a rule are handled in this order
  const TK_UNSET: nat := 0
  const TK_RULE: nat := 1
  const TK_M_PARENTS_MIN: nat := 13
  const TK_M_PARENTS_MAX: nat := 19
  const TK_M_MAX: nat := 29
  const TK_A_STRING_ESCAPE_NONE: nat := 30
  const TK_A_STRING_ESCAPE_REPLACE: nat := 31
  const TK_A_INOTIFY_WATCH: nat := 33
  const TK_A_OWNER: nat := 35
  const TK_A_GROUP: nat := 36
  const TK_A_MODE: nat := 37
  const TK_A_OWNER_ID: nat := 38
  const TK_A_GROUP_ID: nat := 39
  const TK_A_MODE_ID: nat := 40
  const TK_A_NAME: nat := 45
  const TK_A_DEVLINK: nat := 46
  const TK_A_GOTO: nat := 50
  const TK_END: nat := 51

  datatype Op = OpUnset | OpMatch | OpNoMatch | OpMatchMax | OpAdd | OpAssign | OpAssignFinal

  /** One key of a rule; strings stand for their offsets in the string buffer. */
  datatype Key = Key(ty: nat, op: Op, value: CStr, attr: CStr, num: int)

  predicate IsMatch(ty: nat) {
    TK_RULE < ty < TK_M_MAX && ty != TK_M_PARENTS_MIN && ty != TK_M_PARENTS_MAX
  }

  predicate IsParents(ty: nat) {
    TK_M_PARENTS_MIN < ty < TK_M_PARENTS_MAX
  }

  predicate IsAssignment(ty: nat) {
    TK_M_MAX < ty < TK_END
  }

  /** The types rule_add_key() accepts. */
  predicate IsKey(key: Key) {
    IsMatch(key.ty) || IsAssignment(key.ty)
  }

  /** The types by their numbers: matches from TK_M_ACTION to TK_M_RESULT, assignments from string_escape to GOTO. */
  lemma TypesByNumber(key: Key, ty: nat)
    requires key.ty == ty
    ensures IsMatch(ty) <==> 2 <= ty <= 12 || 14 <= ty <= 18 || 20 <= ty <= 28
    ensures IsParents(ty) <==> 14 <= ty <= 18
    ensures IsAssignment(ty) <==> 30 <= ty <= 50
    ensures IsKey(key) <==> 2 <= ty <= 50 && ty !in {13, 19, 29}
  {
  }

  ghost predicate AllKeys(keys: seq<Key>) {
    forall k :: 0 <= k < |keys| ==> IsKey(keys[k])
  }

  // ---- sorting by type ----

  /** The first of the keys with the smallest type. */
  function MinIndex(keys: seq<Key>, n: nat): (m: nat)
    requires 0 < n <= |keys|
    ensures m < n
  {
    if n == 1 then 0
    else
      var m := MinIndex(keys, n - 1);
      if keys[n - 1].ty < keys[m].ty then n - 1 else m
  }

  lemma {:induction false} MinIndexFacts(keys: seq<Key>, n: nat)
    requires 0 < n <= |keys|
    ensures forall k :: 0 <= k < n ==> keys[MinIndex(keys, n)].ty <= keys[k].ty
    ensures forall k :: 0 <= k < MinIndex(keys, n) ==> keys[MinIndex(keys, n)].ty < keys[k].ty
    decreases n
  {
    if n > 1 {
      MinIndexFacts(keys, n - 1);
    }
  }

  function Without(keys: seq<Key>, m: nat): (rest: seq<Key>)
    requires m < |keys|
    ensures |rest| == |keys| - 1
  {
    keys[..m] + keys[m + 1..]
  }

  /** Smallest type first, keys of one type in the order they were given. */
  function Sorted(keys: seq<Key>): (s: seq<Key>)
    ensures |s| == |keys|
    decreases |keys|
  {
    if keys == [] then []
    else
      var m := MinIndex(keys, |keys|);
      [keys[m]] + Sorted(Without(keys, m))
  }

  function OfType(keys: seq<Key>, ty: nat): seq<Key> {
    if keys == [] then []
    else
      var n := |keys| - 1;
      OfType(keys[..n], ty) + if keys[n].ty == ty then [keys[n]] else []
  }

  lemma {:induction false} OfTypeConcat(a: seq<Key>, b: seq<Key>, ty: nat)
    ensures OfType(a + b, ty) == OfType(a, ty) + OfType(b, ty)
    decreases |b|
  {
    if b == [] {
      assert a + b == a;
    } else {
      var n := |b| - 1;
      OfTypeConcat(a, b[..n], ty);
      assert (a + b)[..|a + b| - 1] == a + b[..n];
    }
  }

  lemma {:induction false} NoneOfType(keys: seq<Key>, ty: nat)
    requires forall k :: 0 <= k < |keys| ==> keys[k].ty != ty
    ensures OfType(keys, ty) == []
    decreases |keys|
  {
    if keys != [] {
      NoneOfType(keys[..|keys| - 1], ty);
    }
  }

  lemma WithoutMultiset(keys: seq<Key>, m: nat)
    requires m < |keys|
    ensures multiset(keys) == multiset{keys[m]} + multiset(Without(keys, m))
  {
    assert keys == keys[..m] + ([keys[m]] + keys[m + 1..]);
  }

  /** Sorting loses and adds nothing. */
  lemma {:induction false} SortedPermutation(keys: seq<Key>)
    ensures multiset(Sorted(keys)) == multiset(keys)
    decreases |keys|
  {
    if keys != [] {
      var m := MinIndex(keys, |keys|);
      WithoutMultiset(keys, m);
      SortedPermutation(Without(keys, m));
      assert multiset([keys[m]] + Sorted(Without(keys, m))) == multiset{keys[m]} + multiset(Sorted(Without(keys, m)));
    }
  }

  ghost predicate ByType(s: seq<Key>) {
    forall i, j :: 0 <= i < j < |s| ==> s[i].ty <= s[j].ty
  }

  lemma SmallestFirst(key: Key, s: seq<Key>)
    requires ByType(s) && forall j :: 0 <= j < |s| ==> key.ty <= s[j].ty
    ensures ByType([key] + s)
  {
  }

  /** Where a key of the sorted list was. */
  lemma {:induction false} SortedFrom(keys: seq<Key>, j: nat) returns (i: nat)
    requires j < |keys|
    ensures i < |keys| && Sorted(keys)[j] == keys[i]
    decreases |keys|
  {
    var m := MinIndex(keys, |keys|);
    i := m;
    if j > 0 {
      var k := SortedFrom(Without(keys, m), j - 1);
      i := if k < m then k else k + 1;
    }
  }

  /** None of the other keys has a smaller type. */
  lemma RestAbove(keys: seq<Key>, m: nat)
    requires keys != [] && m == MinIndex(keys, |keys|)
    ensures forall j :: 0 <= j < |keys| - 1 ==> keys[m].ty <= Sorted(Without(keys, m))[j].ty
  {
    MinIndexFacts(keys, |keys|);
    forall j | 0 <= j < |keys| - 1
      ensures keys[m].ty <= Sorted(Without(keys, m))[j].ty
    {
      var i := SortedFrom(Without(keys, m), j);
    }
  }

  /** Types do not decrease. */
  lemma {:induction false} SortedByType(keys: seq<Key>)
    ensures ByType(Sorted(keys))
    decreases |keys|
  {
    if keys != [] {
      var m := MinIndex(keys, |keys|);
      SortedByType(Without(keys, m));
      RestAbove(keys, m);
      SmallestFirst(keys[m], Sorted(Without(keys, m)));
    }
  }

  lemma OfTypeOne(key: Key, ty: nat)
    ensures OfType([key], ty) == if key.ty == ty then [key] else []
  {
    assert [key][..0] == [];
  }

  lemma AroundKey(keys: seq<Key>, m: nat)
    requires m < |keys|
    ensures keys == (keys[..m] + [keys[m]]) + keys[m + 1..]
  {
  }

  /** Taking out the first key of its type. */
  lemma OfTypeWithout(keys: seq<Key>, m: nat, ty: nat)
    requires m < |keys| && forall k :: 0 <= k < m ==> keys[k].ty != keys[m].ty
    ensures OfType(keys, ty) == (if keys[m].ty == ty then [keys[m]] else []) + OfType(Without(keys, m), ty)
  {
    var before, after := keys[..m], keys[m + 1..];
    AroundKey(keys, m);
    OfTypeConcat(before + [keys[m]], after, ty);
    OfTypeConcat(before, [keys[m]], ty);
    OfTypeConcat(before, after, ty);
    OfTypeOne(keys[m], ty);
    if keys[m].ty == ty {
      NoneOfType(before, ty);
    }
    MovedUp(OfType(before, ty), OfType([keys[m]], ty), OfType(after, ty));
  }

  lemma MovedUp(a: seq<Key>, one: seq<Key>, b: seq<Key>)
    requires a == [] || one == []
    ensures (a + one) + b == one + (a + b)
  {
  }

  /** Keys of one type keep their order. */
  lemma {:induction false} SortedStable(keys: seq<Key>, ty: nat)
    ensures OfType(Sorted(keys), ty) == OfType(keys, ty)
    decreases |keys|
  {
    if keys != [] {
      var m := MinIndex(keys, |keys|);
      SortedStable(Without(keys, m), ty);
      OfTypeConcat([keys[m]], Sorted(Without(keys, m)), ty);
      OfTypeOne(keys[m], ty);
      MinIndexFacts(keys, |keys|);
      OfTypeWithout(keys, m, ty);
    }
  }
}
