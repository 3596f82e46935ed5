/**
  Whole runs of the rules: compiled and applied they do what they mean, and what a
  run can no longer change.
  */
module RuleRuns {
  import opened CStrings
  import opened RuleTokens
  import opened RuleCompiler
  import opened RuleLayout
  import opened RuleParser
  import opened RuleSemantics
  import opened RuleAssignments
  import opened RuleInterpreter

  /** Load all files, apply them to an event: the event becomes what the rules, file by file, make of it. */
  method LoadAndApply(files: seq<seq<Rule>>, event: Event, env: Env) returns (ev: Event)
    requires Numbered(files) && env.devices > 0
    ensures ev == Run(Flatten(files), 0, event, env)
    ensures Traced(KeysOf(Flatten(files)), event, ev, env)
  {
    RunTraced(Flatten(files), 0, event, env);
    var rules := RulesLoad(files);
    FlattenFacts(files);
    ev := ApplyToEvent(rules, event, env, Flatten(files));
  }

  // ---- GOTO stays in its file ----

  /** What the rules of later files do does not depend on how control left the earlier ones. */
  lemma {:induction false} GotoStaysInFile(rules: seq<Rule>, r: nat, keys: seq<Key>, k: nat, esc: Escape, ev: Event,
                                           env: Env)
    requires r < |rules| && k <= |keys|
    ensures var o := Act(rules, r, keys, k, esc, ev, env);
            o.next == r + 1 ||
            (o.next < |rules| && rules[o.next].file == rules[r].file && rules[o.next].name != [] &&
             exists i :: k <= i < |keys| && keys[i].ty == TK_A_GOTO && keys[i].value == rules[o.next].name)
    decreases |keys| - k
  {
    if k < |keys| {
      if keys[k].ty == TK_A_GOTO {
        LabelFound(rules, r + 1, rules[r].file, keys[k].value);
        if FirstLabel(rules, r + 1, rules[r].file, keys[k].value) == |rules| {
          GotoStaysInFile(rules, r, keys, k + 1, esc, ev, env);
        }
      } else if keys[k].ty == TK_A_STRING_ESCAPE_NONE {
        GotoStaysInFile(rules, r, keys, k + 1, EscapeNone, ev, env);
      } else if keys[k].ty == TK_A_STRING_ESCAPE_REPLACE {
        GotoStaysInFile(rules, r, keys, k + 1, EscapeReplace, ev, env);
      } else {
        GotoStaysInFile(rules, r, keys, k + 1, esc, Assign(keys[k], esc, ev, env), env);
      }
    }
  }

  // ---- a rule whose matches fail ----

  /** The keys that are matches, in their order. */
  function Matches(keys: seq<Key>): seq<Key> {
    if keys == [] then []
    else
      var n := |keys| - 1;
      Matches(keys[..n]) + if IsMatch(keys[n].ty) then [keys[n]] else []
  }

  lemma {:induction false} MatchesOfType(keys: seq<Key>, ty: nat)
    ensures OfType(Matches(keys), ty) == if IsMatch(ty) then OfType(keys, ty) else []
    decreases |keys|
  {
    if keys != [] {
      var n := |keys| - 1;
      MatchesOfType(keys[..n], ty);
      OfTypeConcat(Matches(keys[..n]), if IsMatch(keys[n].ty) then [keys[n]] else [], ty);
      assert [keys[n]][..0] == [];
    }
  }

  ghost predicate ByType(keys: seq<Key>) {
    forall i, j {:trigger InOrder(keys, i, j)} :: 0 <= i < j < |keys| ==> InOrder(keys, i, j)
  }

  ghost predicate InOrder(keys: seq<Key>, i: nat, j: nat)
    requires i < |keys| && j < |keys|
  {
    keys[i].ty <= keys[j].ty
  }

  lemma ByTypeInit(keys: seq<Key>)
    requires ByType(keys) && keys != []
    ensures ByType(keys[..|keys| - 1])
    ensures forall k :: 0 <= k < |keys| ==> keys[k].ty <= keys[|keys| - 1].ty
  {
    var init := keys[..|keys| - 1];
    forall i, j | 0 <= i < j < |init|
      ensures InOrder(init, i, j)
    {
      assert InOrder(keys, i, j);
    }
    forall k | 0 <= k < |keys| - 1
      ensures keys[k].ty <= keys[|keys| - 1].ty
    {
      assert InOrder(keys, k, |keys| - 1);
    }
  }

  /** A key of the type there is. */
  lemma {:induction false} OfTypeHas(keys: seq<Key>, ty: nat) returns (k: nat)
    requires OfType(keys, ty) != []
    ensures k < |keys| && keys[k].ty == ty
    decreases |keys|
  {
    var n := |keys| - 1;
    if keys[n].ty == ty {
      k := n;
    } else {
      k := OfTypeHas(keys[..n], ty);
    }
  }

  /** The last key is the last of its type. */
  lemma OfTypeLast(keys: seq<Key>, ty: nat)
    requires keys != []
    ensures var n, of := |keys| - 1, OfType(keys, ty);
            if keys[n].ty == ty then of != [] && of[|of| - 1] == keys[n] && OfType(keys[..n], ty) == of[..|of| - 1]
            else OfType(keys[..n], ty) == of
  {
    assert OfType(keys[..|keys| - 1], ty) + [] == OfType(keys[..|keys| - 1], ty);
  }

  /** The last type of one sequence is reached in the other. */
  lemma TypeReached(a: seq<Key>, b: seq<Key>, ty: nat)
    requires a != [] && ty == a[|a| - 1].ty && OfType(a, ty) == OfType(b, ty) && ByType(b)
    ensures b != [] && ty <= b[|b| - 1].ty
  {
    OfTypeLast(a, ty);
    var k := OfTypeHas(b, ty);
    ByTypeInit(b);
  }

  lemma LastOfType(a: seq<Key>, b: seq<Key>, ty: nat)
    requires a != [] && b != [] && a[|a| - 1].ty == b[|b| - 1].ty == ty && OfType(a, ty) == OfType(b, ty)
    ensures a[|a| - 1] == b[|b| - 1]
  {
    OfTypeLast(a, ty);
    OfTypeLast(b, ty);
  }

  ghost predicate SameOfType(a: seq<Key>, b: seq<Key>, ty: nat) {
    OfType(a, ty) == OfType(b, ty)
  }

  /** Of two sequences sorted alike, with the same keys of every type, the last keys are the same. */
  lemma SameLast(a: seq<Key>, b: seq<Key>)
    requires ByType(a) && ByType(b) && a != []
    requires forall ty :: SameOfType(a, b, ty)
    ensures b != [] && b[|b| - 1] == a[|a| - 1]
  {
    assert SameOfType(a, b, a[|a| - 1].ty);
    TypeReached(a, b, a[|a| - 1].ty);
    assert SameOfType(a, b, b[|b| - 1].ty);
    TypeReached(b, a, b[|b| - 1].ty);
    LastOfType(a, b, a[|a| - 1].ty);
  }

  lemma {:induction false} SortedAlike(a: seq<Key>, b: seq<Key>)
    requires ByType(a) && ByType(b) && forall ty :: SameOfType(a, b, ty)
    ensures a == b
    decreases |a|
  {
    if a == [] {
      if b != [] {
        assert SameOfType(a, b, b[|b| - 1].ty);
        OfTypeLast(b, b[|b| - 1].ty);
        assert false;
      }
    } else {
      SameLast(a, b);
      var a', b' := a[..|a| - 1], b[..|b| - 1];
      forall ty
        ensures SameOfType(a', b', ty)
      {
        assert SameOfType(a, b, ty);
        OfTypeLast(a, ty);
        OfTypeLast(b, ty);
      }
      ByTypeInit(a);
      ByTypeInit(b);
      SortedAlike(a', b');
      assert a == a' + [a[|a| - 1]] && b == b' + [b[|b| - 1]];
    }
  }

  lemma SortedInOrder(keys: seq<Key>)
    ensures ByType(Sorted(keys))
  {
    SortedByType(keys);
  }

  /** Matches come before assignments, so of sorted keys they are the first ones. */
  lemma {:induction false} MatchesFirst(keys: seq<Key>, n: nat)
    requires n <= |keys| && (forall k :: 0 <= k < |keys| ==> (IsMatch(keys[k].ty) <==> k < n))
    ensures Matches(keys) == keys[..n]
    decreases |keys|
  {
    if keys != [] {
      var m := |keys| - 1;
      if n == |keys| {
        MatchesFirst(keys[..m], m);
        assert keys[..n] == keys[..m] + [keys[m]] && keys[..m][..m] == keys[..m];
      } else {
        MatchesFirst(keys[..m], n);
        assert keys[..m][..n] == keys[..n];
      }
    }
  }

  lemma {:induction false} MatchCountFacts(keys: seq<Key>, k: nat)
    requires k <= |keys|
    ensures forall i :: k <= i < MatchCount(keys, k) ==> IsMatch(keys[i].ty)
    ensures MatchCount(keys, k) < |keys| ==> !IsMatch(keys[MatchCount(keys, k)].ty)
    decreases |keys| - k
  {
    if k < |keys| && IsMatch(keys[k].ty) {
      MatchCountFacts(keys, k + 1);
    }
  }

  /** Sorting the matches alone gives the sorted keys up to the first assignment. */
  lemma SortedMatches(keys: seq<Key>)
    requires AllKeys(keys)
    ensures Sorted(Matches(keys)) == Sorted(keys)[..MatchCount(Sorted(keys), 0)]
  {
    var sorted, n := Sorted(keys), MatchCount(Sorted(keys), 0);
    MatchCountFacts(sorted, 0);
    SortedInOrder(keys);
    forall k | 0 <= k < |sorted|
      ensures IsMatch(sorted[k].ty) <==> k < n
    {
      SortedKeys(keys, k);
      if n < k {
        assert InOrder(sorted, n, k);
        SortedKeys(keys, n);
      } else if n == k {
        SortedKeys(keys, n);
      }
    }
    MatchesFirst(sorted, n);
    forall ty
      ensures SameOfType(Sorted(Matches(keys)), sorted[..n], ty)
    {
      SortedStable(Matches(keys), ty);
      SortedStable(keys, ty);
      MatchesOfType(keys, ty);
      MatchesOfType(sorted, ty);
    }
    SortedInOrder(Matches(keys));
    assert ByType(sorted[..n]) by {
      forall i, j | 0 <= i < j < n
        ensures InOrder(sorted[..n], i, j)
      {
        assert InOrder(sorted, i, j);
      }
    }
    SortedAlike(Sorted(Matches(keys)), sorted[..n]);
  }

  lemma {:induction false} ParentsEndCut(keys: seq<Key>, k: nat, n: nat)
    requires k <= n <= |keys| && (n < |keys| ==> !IsMatch(keys[n].ty))
    ensures ParentsEnd(keys[..n], k) == ParentsEnd(keys, k) <= n
    decreases n - k
  {
    if k < n && IsParents(keys[k].ty) {
      ParentsEndCut(keys, k + 1, n);
    }
  }

  lemma {:induction false} FirstParentCut(keys: seq<Key>, k: nat, m: nat, n: nat, device: nat, ev: Event, env: Env)
    requires k <= m <= n <= |keys| && device <= env.devices
    ensures FirstParent(keys[..n], k, m, device, ev, env) == FirstParent(keys, k, m, device, ev, env)
    decreases env.devices - device
  {
    assert ParentPasses(keys[..n], k, m, device, ev, env) <==> ParentPasses(keys, k, m, device, ev, env);
    if device < env.devices && !ParentPasses(keys, k, m, device, ev, env) {
      FirstParentCut(keys, k, m, n, device + 1, ev, env);
    }
  }

  /** What the matches say does not depend on the assignments behind them. */
  lemma {:induction false} PassesCut(keys: seq<Key>, k: nat, n: nat, ev: Event, env: Env)
    requires k <= n <= |keys| && (n < |keys| ==> !IsMatch(keys[n].ty))
    ensures Passes(keys[..n], k, ev, env) == Passes(keys, k, ev, env)
    decreases n - k
  {
    if k < n && IsMatch(keys[k].ty) {
      if IsParents(keys[k].ty) {
        ParentsEndCut(keys, k, n);
        var m := ParentsEnd(keys, k);
        var device := FirstParent(keys, k, m, 0, ev, env);
        FirstParentCut(keys, k, m, n, 0, ev, env);
        if device < env.devices {
          PassesCut(keys, m, n, ev.(devParent := Parent(device)), env);
        }
      } else {
        var test := env.matches(keys[k], EscapeUnset, ev);
        if test.pass {
          PassesCut(keys, k + 1, n, ev.(world := test.world), env);
        }
      }
    }
  }

  /**
    A rule one of whose matches fails assigns nothing at all: it does what it would do
    without its assignments, and the next rule follows.
    */
  lemma FailedRuleAssignsNothing(rules: seq<Rule>, r: nat, ev: Event, env: Env)
    requires r < |rules| && AllKeys(rules[r].keys) && !Passes(Sorted(rules[r].keys), 0, ev, env).pass
    ensures var bare := rules[r := rules[r].(keys := Matches(rules[r].keys))];
            RunRule(rules, r, ev, env) == RunRule(bare, r, ev, env)
    ensures var o := RunRule(rules, r, ev, env); o.next == r + 1 && SameAssigned(ev, o.ev)
  {
    var keys := Sorted(rules[r].keys);
    SortedMatches(rules[r].keys);
    MatchCountFacts(keys, 0);
    PassesCut(keys, 0, MatchCount(keys, 0), ev, env);
    MatchesAssignNothing(keys, 0, ev, env);
  }

  // ---- remove events ----

  /** OWNER, GROUP, MODE, NAME and SYMLINK, as assignments. */
  predicate SetsNames(key: Key) {
    key.ty in {TK_A_OWNER, TK_A_OWNER_ID, TK_A_GROUP, TK_A_GROUP_ID, TK_A_MODE, TK_A_MODE_ID, TK_A_NAME, TK_A_DEVLINK}
  }

  /** add_rule() marks every rule that has such a key. */
  ghost predicate Flagged(rules: seq<Rule>) {
    forall r, k :: 0 <= r < |rules| && 0 <= k < |rules[r].keys| && SetsNames(rules[r].keys[k]) ==> rules[r].canSetName
  }

  /** Owner, group, mode, name and links are what they were. */
  ghost predicate SameNames(ev: Event, ev': Event) {
    && ev'.owner == ev.owner && ev'.group == ev.group && ev'.mode == ev.mode
    && ev'.name == ev.name && ev'.nameFinal == ev.nameFinal
    && ev'.devlinks == ev.devlinks && ev'.devlinkFinal == ev.devlinkFinal
  }

  lemma {:induction false} ActKeepsNames(rules: seq<Rule>, r: nat, keys: seq<Key>, k: nat, esc: Escape, ev: Event,
                                         env: Env)
    requires r < |rules| && k <= |keys| && forall i :: 0 <= i < |keys| ==> !SetsNames(keys[i])
    ensures SameNames(ev, Act(rules, r, keys, k, esc, ev, env).ev)
    decreases |keys| - k
  {
    if k < |keys| {
      if keys[k].ty == TK_A_GOTO {
        if FirstLabel(rules, r + 1, rules[r].file, keys[k].value) == |rules| {
          ActKeepsNames(rules, r, keys, k + 1, esc, ev, env);
        }
      } else if keys[k].ty == TK_A_STRING_ESCAPE_NONE {
        ActKeepsNames(rules, r, keys, k + 1, EscapeNone, ev, env);
      } else if keys[k].ty == TK_A_STRING_ESCAPE_REPLACE {
        ActKeepsNames(rules, r, keys, k + 1, EscapeReplace, ev, env);
      } else {
        ActKeepsNames(rules, r, keys, k + 1, esc, Assign(keys[k], esc, ev, env), env);
      }
    }
  }

  lemma SortedSetsNoNames(keys: seq<Key>)
    requires forall k :: 0 <= k < |keys| ==> !SetsNames(keys[k])
    ensures forall k :: 0 <= k < |keys| ==> !SetsNames(Sorted(keys)[k])
  {
    SortedPermutation(keys);
    forall k | 0 <= k < |keys|
      ensures !SetsNames(Sorted(keys)[k])
    {
      assert Sorted(keys)[k] in multiset(keys);
    }
  }

  /** Where names may not be set, as on every remove event, a run leaves names, links and permissions as they are. */
  lemma {:induction false} RemoveKeepsNames(rules: seq<Rule>, r: nat, ev: Event, env: Env)
    requires r <= |rules| && !env.canSetName && Flagged(rules)
    ensures SameNames(ev, Run(rules, r, ev, env))
    decreases |rules| - r
  {
    if r < |rules| {
      var keys := Sorted(rules[r].keys);
      if !rules[r].canSetName {
        SortedSetsNoNames(rules[r].keys);
        var verdict := Passes(keys, 0, ev, env);
        MatchesAssignNothing(keys, 0, ev, env);
        if verdict.pass {
          ActKeepsNames(rules, r, keys, MatchCount(keys, 0), EscapeUnset, verdict.ev, env);
        }
      }
      var o := RunRule(rules, r, ev, env);
      RemoveKeepsNames(rules, o.next, o.ev, env);
    }
  }

  // ---- final assignments ----

  /** What is final keeps its value, and stays final. */
  ghost predicate KeepsFinal(ev: Event, ev': Event) {
    && (ev.owner.isFinal ==> ev'.owner == ev.owner)
    && (ev.group.isFinal ==> ev'.group == ev.group)
    && (ev.mode.isFinal ==> ev'.mode == ev.mode)
    && (ev.watch.isFinal ==> ev'.watch == ev.watch)
    && (ev.nameFinal ==> ev'.nameFinal && ev'.name == ev.name)
    && (ev.devlinkFinal ==> ev'.devlinkFinal && ev'.devlinks == ev.devlinks)
  }

  lemma {:induction false} ActKeepsFinal(rules: seq<Rule>, r: nat, keys: seq<Key>, k: nat, esc: Escape, ev: Event,
                                         env: Env)
    requires r < |rules| && k <= |keys|
    ensures KeepsFinal(ev, Act(rules, r, keys, k, esc, ev, env).ev)
    decreases |keys| - k
  {
    if k < |keys| {
      if keys[k].ty == TK_A_GOTO {
        if FirstLabel(rules, r + 1, rules[r].file, keys[k].value) == |rules| {
          ActKeepsFinal(rules, r, keys, k + 1, esc, ev, env);
        }
      } else if keys[k].ty == TK_A_STRING_ESCAPE_NONE {
        ActKeepsFinal(rules, r, keys, k + 1, EscapeNone, ev, env);
      } else if keys[k].ty == TK_A_STRING_ESCAPE_REPLACE {
        ActKeepsFinal(rules, r, keys, k + 1, EscapeReplace, ev, env);
      } else {
        AssignKeepsFinal(keys[k], esc, ev, env);
        ActKeepsFinal(rules, r, keys, k + 1, esc, Assign(keys[k], esc, ev, env), env);
      }
    }
  }

  lemma AssignKeepsFinal(key: Key, esc: Escape, ev: Event, env: Env)
    ensures KeepsFinal(ev, Assign(key, esc, ev, env))
  {
  }

  /** Once a := has made an owner, group, mode, name or set of links final, no rule changes it. */
  lemma {:induction false} RunKeepsFinal(rules: seq<Rule>, r: nat, ev: Event, env: Env)
    requires r <= |rules|
    ensures KeepsFinal(ev, Run(rules, r, ev, env))
    decreases |rules| - r
  {
    if r < |rules| {
      var keys := Sorted(rules[r].keys);
      if env.canSetName || !rules[r].canSetName {
        var verdict := Passes(keys, 0, ev, env);
        MatchesAssignNothing(keys, 0, ev, env);
        if verdict.pass {
          ActKeepsFinal(rules, r, keys, MatchCount(keys, 0), EscapeUnset, verdict.ev, env);
        }
      }
      var o := RunRule(rules, r, ev, env);
      RunKeepsFinal(rules, o.next, o.ev, env);
    }
  }

  /** A := for OWNER, GROUP, MODE or NAME that takes effect makes its value final, to the end of the run. */
  lemma FinalIsInForce(key: Key, esc: Escape, ev: Event, env: Env, rules: seq<Rule>, r: nat)
    requires r <= |rules| && key.op == OpAssignFinal
    ensures var ev1 := Assign(key, esc, ev, env);
            var last := Run(rules, r, ev1, env);
            && (key.ty == TK_A_OWNER || key.ty == TK_A_OWNER_ID ==> last.owner == ev1.owner && last.owner.isFinal)
            && (key.ty == TK_A_GROUP || key.ty == TK_A_GROUP_ID ==> last.group == ev1.group && last.group.isFinal)
            && (key.ty == TK_A_MODE_ID ==> last.mode == ev1.mode && last.mode.isFinal)
            && (key.ty == TK_A_MODE && (ev.mode.isFinal || env.octal(env.format(key.value, ev)).Octal?) ==>
                  last.mode == ev1.mode && last.mode.isFinal)
            && (key.ty == TK_A_NAME ==> last.nameFinal && last.name == ev1.name)
            && (key.ty == TK_A_DEVLINK && env.devMajor > 0 ==> last.devlinkFinal && last.devlinks == ev1.devlinks)
  {
    RunKeepsFinal(rules, r, Assign(key, esc, ev, env), env);
  }

  // ---- the static node pass ----

  /** udev_rules_apply_static_dev_perms() relies on it: permissions (38-40) and tags (41) precede static nodes (42). */
  lemma {:induction false} PermissionsBeforeStaticNode(keys: seq<Key>, i: nat, j: nat)
    requires i < |keys| && j < |keys|
    requires Sorted(keys)[i].ty in {38, 39, 40, 41} && Sorted(keys)[j].ty == 42
    ensures i < j
  {
    SortedInOrder(keys);
    assert j < i ==> InOrder(Sorted(keys), j, i);
  }
}
