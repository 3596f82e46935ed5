/**
  What the assignments of the rules write, stated on runs: where a value at the end of a
  run comes from, that links add up, and what each assignment leaves behind, with the
  numbers of the keys as src/core/udev-rules.c has them.
  */
module RuleAssignments {
  import opened CStrings
  import opened RuleTokens
  import opened RuleLayout
  import opened RuleSemantics

  // ---- matches change nothing that rules assign ----

  /** The same but for what tests may change. */
  ghost predicate SameAssigned(ev: Event, ev': Event) {
    ev'.(world := ev.world, devParent := ev.devParent) == ev
  }

  lemma {:induction false} MatchesAssignNothing(keys: seq<Key>, k: nat, ev: Event, env: Env)
    requires k <= |keys|
    ensures SameAssigned(ev, Passes(keys, k, ev, env).ev)
    decreases |keys| - k
  {
    if k < |keys| && IsMatch(keys[k].ty) {
      if IsParents(keys[k].ty) {
        var n := ParentsEnd(keys, k);
        var device := FirstParent(keys, k, n, 0, ev, env);
        if device < env.devices {
          MatchesAssignNothing(keys, n, ev.(devParent := Parent(device)), env);
        }
      } else {
        var test := env.matches(keys[k], EscapeUnset, ev);
        if test.pass {
          MatchesAssignNothing(keys, k + 1, ev.(world := test.world), env);
        }
      }
    }
  }

  // ---- where values come from ----

  /** OWNER by name (35) or number (38). */
  ghost predicate OwnerFrom(key: Key, s: Setting, env: Env) {
    && s.isSet && (s.isFinal <==> key.op == OpAssignFinal)
    && ((key.ty == 38 && s.value == key.num) ||
        (key.ty == 35 && exists ev :: s.value == env.user(env.format(key.value, ev))))
  }

  /** GROUP by name (36) or number (39). */
  ghost predicate GroupFrom(key: Key, s: Setting, env: Env) {
    && s.isSet && (s.isFinal <==> key.op == OpAssignFinal)
    && ((key.ty == 39 && s.value == key.num) ||
        (key.ty == 36 && exists ev :: s.value == env.group(env.format(key.value, ev))))
  }

  /** MODE as a text (37), which has to be an octal number, or as a number (40). */
  ghost predicate ModeFrom(key: Key, s: Setting, env: Env) {
    && s.isSet && (s.isFinal <==> key.op == OpAssignFinal)
    && ((key.ty == 40 && s.value == key.num) ||
        (key.ty == 37 && exists ev ::
           env.octal(env.format(key.value, ev)).Octal? && s.value == env.octal(env.format(key.value, ev)).mode))
  }

  /** NAME (45): the formatted value, its characters replaced but for a slash unless string_escape says none. */
  ghost predicate NameFrom(key: Key, name: CStr, env: Env) {
    && key.ty == 45 && (env.devMajor == 0 || name == env.devnode)
    && exists ev ::
         name == env.format(key.value, ev) || name == env.replaced(env.format(key.value, ev), [47])
  }

  /** SYMLINK (46): a word of the formatted value, its characters replaced but for slashes, or slashes and spaces. */
  ghost predicate LinkFrom(key: Key, slink: CStr, env: Env) {
    && key.ty == 46 && env.devMajor > 0
    && exists ev ::
         || slink in env.words(env.format(key.value, ev))
         || slink in env.words(env.replaced(env.format(key.value, ev), [47]))
         || slink in env.words(env.replaced(env.format(key.value, ev), [47, 32]))
  }

  ghost predicate LinksFrom(ks: set<Key>, links: set<CStr>, links': set<CStr>, env: Env) {
    forall l :: l in links' ==> l in links || exists key :: key in ks && LinkFrom(key, l, env)
  }

  /** Whatever is not as before comes from one of the keys. */
  ghost predicate From(ks: set<Key>, ev: Event, ev': Event, env: Env) {
    && (ev'.owner == ev.owner || exists key :: key in ks && OwnerFrom(key, ev'.owner, env))
    && (ev'.group == ev.group || exists key :: key in ks && GroupFrom(key, ev'.group, env))
    && (ev'.mode == ev.mode || exists key :: key in ks && ModeFrom(key, ev'.mode, env))
    && (ev'.name == ev.name || exists key :: key in ks && NameFrom(key, ev'.name, env))
    && LinksFrom(ks, ev.devlinks, ev'.devlinks, env)
  }

  /** SYMLINK with = or := (46) replaces links. */
  predicate Replaces(key: Key) {
    key.ty == 46 && (key.op == OpAssign || key.op == OpAssignFinal)
  }

  /** No link is lost unless a key replaces them. */
  ghost predicate LinksKept(ks: set<Key>, ev: Event, ev': Event) {
    (forall key :: key in ks ==> !Replaces(key)) ==> ev.devlinks <= ev'.devlinks
  }

  /** What keys may do to an event, in any number and order. */
  ghost predicate Traced(ks: set<Key>, ev: Event, ev': Event, env: Env) {
    From(ks, ev, ev', env) && LinksKept(ks, ev, ev')
  }

  lemma TracedTwice(ks: set<Key>, ev: Event, ev': Event, ev'': Event, env: Env)
    requires Traced(ks, ev, ev', env) && Traced(ks, ev', ev'', env)
    ensures Traced(ks, ev, ev'', env)
  {
  }

  lemma SameTraced(ks: set<Key>, ev: Event, ev': Event, env: Env)
    requires SameAssigned(ev, ev')
    ensures Traced(ks, ev, ev', env)
  {
  }

  lemma OwnerTraced(key: Key, ev: Event, env: Env)
    requires key.ty == TK_A_OWNER || key.ty == TK_A_OWNER_ID
    ensures NewOwner(key, ev, env) == ev.owner || OwnerFrom(key, NewOwner(key, ev, env), env)
  {
    if !ev.owner.isFinal && key.ty == TK_A_OWNER {
      var ev1 := ev.(owner := ev.owner.(isFinal := IsFinal(key)));
      assert NewOwner(key, ev, env).value == env.user(env.format(key.value, ev1));
    }
  }

  lemma GroupTraced(key: Key, ev: Event, env: Env)
    requires key.ty == TK_A_GROUP || key.ty == TK_A_GROUP_ID
    ensures NewGroup(key, ev, env) == ev.group || GroupFrom(key, NewGroup(key, ev, env), env)
  {
    if !ev.group.isFinal && key.ty == TK_A_GROUP {
      var ev1 := ev.(group := ev.group.(isFinal := IsFinal(key)));
      assert NewGroup(key, ev, env).value == env.group(env.format(key.value, ev1));
    }
  }

  lemma ModeTraced(key: Key, ev: Event, env: Env)
    requires key.ty == TK_A_MODE || key.ty == TK_A_MODE_ID
    ensures NewMode(key, ev, env) == ev.mode || ModeFrom(key, NewMode(key, ev, env), env)
  {
    if key.ty == TK_A_MODE {
      var parsed := env.octal(env.format(key.value, ev));
    }
  }

  lemma NameTraced(key: Key, esc: Escape, ev: Event, env: Env)
    requires key.ty == TK_A_NAME
    ensures NewName(key, esc, ev, env) == ev.name || NameFrom(key, NewName(key, esc, ev, env), env)
  {
    var ev1 := ev.(nameFinal := IsFinal(key));
    var formatted := env.format(key.value, ev1);
  }

  lemma LinkTraced(key: Key, esc: Escape, ev: Event, env: Env, l: CStr)
    requires key.ty == TK_A_DEVLINK && env.devMajor > 0 && l in NewLinks(key, esc, ev, env)
    ensures l in ev.devlinks || LinkFrom(key, l, env)
  {
    if l !in ev.devlinks {
      var links := if key.op == OpAssign || key.op == OpAssignFinal then {} else ev.devlinks;
      var ev1 := ev.(devlinkFinal := IsFinal(key), devlinks := links);
      var formatted := env.format(key.value, ev1);
    }
  }

  lemma AssignTraced(ks: set<Key>, key: Key, esc: Escape, ev: Event, env: Env)
    requires key in ks
    ensures Traced(ks, ev, Assign(key, esc, ev, env), env)
  {
    var ev' := Assign(key, esc, ev, env);
    if key.ty == TK_A_OWNER || key.ty == TK_A_OWNER_ID {
      OwnerTraced(key, ev, env);
    } else if key.ty == TK_A_GROUP || key.ty == TK_A_GROUP_ID {
      GroupTraced(key, ev, env);
    } else if key.ty == TK_A_MODE || key.ty == TK_A_MODE_ID {
      ModeTraced(key, ev, env);
    } else if key.ty == TK_A_NAME && !ev.nameFinal {
      NameTraced(key, esc, ev, env);
    } else if key.ty == TK_A_DEVLINK && !ev.devlinkFinal && env.devMajor > 0 {
      forall l | l in ev'.devlinks
        ensures l in ev.devlinks || LinkFrom(key, l, env)
      {
        LinkTraced(key, esc, ev, env, l);
      }
    }
  }

  lemma {:induction false} ActTraced(ks: set<Key>, rules: seq<Rule>, r: nat, keys: seq<Key>, k: nat, esc: Escape,
                                     ev: Event, env: Env)
    requires r < |rules| && k <= |keys| && forall i :: 0 <= i < |keys| ==> keys[i] in ks
    ensures Traced(ks, ev, Act(rules, r, keys, k, esc, ev, env).ev, env)
    decreases |keys| - k
  {
    if k == |keys| {
      SameTraced(ks, ev, ev, env);
    } else if keys[k].ty == TK_A_GOTO {
      if FirstLabel(rules, r + 1, rules[r].file, keys[k].value) == |rules| {
        ActTraced(ks, rules, r, keys, k + 1, esc, ev, env);
      } else {
        SameTraced(ks, ev, ev, env);
      }
    } else if keys[k].ty == TK_A_STRING_ESCAPE_NONE {
      ActTraced(ks, rules, r, keys, k + 1, EscapeNone, ev, env);
    } else if keys[k].ty == TK_A_STRING_ESCAPE_REPLACE {
      ActTraced(ks, rules, r, keys, k + 1, EscapeReplace, ev, env);
    } else {
      var ev1 := Assign(keys[k], esc, ev, env);
      AssignTraced(ks, keys[k], esc, ev, env);
      ActTraced(ks, rules, r, keys, k + 1, esc, ev1, env);
      TracedTwice(ks, ev, ev1, Act(rules, r, keys, k, esc, ev, env).ev, env);
    }
  }

  /** All keys of the rules. */
  ghost function KeysOf(rules: seq<Rule>): set<Key> {
    set r, k | 0 <= r < |rules| && 0 <= k < |rules[r].keys| :: rules[r].keys[k]
  }

  lemma SortedAmong(rules: seq<Rule>, r: nat)
    requires r < |rules|
    ensures forall i :: 0 <= i < |rules[r].keys| ==> Sorted(rules[r].keys)[i] in KeysOf(rules)
  {
    forall i | 0 <= i < |rules[r].keys|
      ensures Sorted(rules[r].keys)[i] in KeysOf(rules)
    {
      var j := SortedFrom(rules[r].keys, i);
    }
  }

  lemma RuleTraced(rules: seq<Rule>, r: nat, ev: Event, env: Env)
    requires r < |rules|
    ensures Traced(KeysOf(rules), ev, RunRule(rules, r, ev, env).ev, env)
  {
    var ks, keys := KeysOf(rules), Sorted(rules[r].keys);
    var verdict := Passes(keys, 0, ev, env);
    MatchesAssignNothing(keys, 0, ev, env);
    SameTraced(ks, ev, verdict.ev, env);
    SameTraced(ks, ev, ev, env);
    if verdict.pass {
      SortedAmong(rules, r);
      ActTraced(ks, rules, r, keys, MatchCount(keys, 0), EscapeUnset, verdict.ev, env);
      TracedTwice(ks, ev, verdict.ev, Act(rules, r, keys, MatchCount(keys, 0), EscapeUnset, verdict.ev, env).ev, env);
    }
  }

  /**
    At the end of a run owner, group, mode, name and every link are what they were or come
    from a key of the rules, as this kind of key has it; and no link is lost unless some
    SYMLINK key has = or :=.
    */
  lemma {:induction false} RunTraced(rules: seq<Rule>, r: nat, ev: Event, env: Env)
    requires r <= |rules|
    ensures Traced(KeysOf(rules), ev, Run(rules, r, ev, env), env)
    decreases |rules| - r
  {
    if r == |rules| {
      SameTraced(KeysOf(rules), ev, ev, env);
    } else {
      var o := RunRule(rules, r, ev, env);
      RuleTraced(rules, r, ev, env);
      RunTraced(rules, o.next, o.ev, env);
      TracedTwice(KeysOf(rules), ev, o.ev, Run(rules, r, ev, env), env);
    }
  }

  // ---- what each assignment leaves behind, wherever in a rule it is ----

  /** From the next key on, with this event: all that an assignment does. */
  ghost predicate GoesOn(rules: seq<Rule>, r: nat, keys: seq<Key>, k: nat, esc: Escape, ev: Event, env: Env, ev': Event)
    requires r < |rules| && k < |keys|
  {
    Act(rules, r, keys, k, esc, ev, env) == Act(rules, r, keys, k + 1, esc, ev', env)
  }

  lemma OwnerWritten(rules: seq<Rule>, r: nat, keys: seq<Key>, k: nat, esc: Escape, ev: Event, env: Env)
    requires r < |rules| && k < |keys| && keys[k].ty in {35, 38}
    ensures var key, last := keys[k], keys[k].op == OpAssignFinal;
            if ev.owner.isFinal then GoesOn(rules, r, keys, k, esc, ev, env, ev)
            else if key.ty == 38 then
              GoesOn(rules, r, keys, k, esc, ev, env, ev.(owner := Setting(key.num, true, last)))
            else
              var text := env.format(key.value, ev.(owner := Setting(ev.owner.value, ev.owner.isSet, last)));
              GoesOn(rules, r, keys, k, esc, ev, env, ev.(owner := Setting(env.user(text), true, last)))
  {
  }

  lemma GroupWritten(rules: seq<Rule>, r: nat, keys: seq<Key>, k: nat, esc: Escape, ev: Event, env: Env)
    requires r < |rules| && k < |keys| && keys[k].ty in {36, 39}
    ensures var key, last := keys[k], keys[k].op == OpAssignFinal;
            if ev.group.isFinal then GoesOn(rules, r, keys, k, esc, ev, env, ev)
            else if key.ty == 39 then
              GoesOn(rules, r, keys, k, esc, ev, env, ev.(group := Setting(key.num, true, last)))
            else
              var text := env.format(key.value, ev.(group := Setting(ev.group.value, ev.group.isSet, last)));
              GoesOn(rules, r, keys, k, esc, ev, env, ev.(group := Setting(env.group(text), true, last)))
  {
  }

  /** A text that is no octal number changes nothing. */
  lemma ModeWritten(rules: seq<Rule>, r: nat, keys: seq<Key>, k: nat, esc: Escape, ev: Event, env: Env)
    requires r < |rules| && k < |keys| && keys[k].ty in {37, 40}
    ensures var key, last, parsed := keys[k], keys[k].op == OpAssignFinal, env.octal(env.format(keys[k].value, ev));
            if ev.mode.isFinal || (key.ty == 37 && parsed.NotOctal?) then GoesOn(rules, r, keys, k, esc, ev, env, ev)
            else
              GoesOn(rules, r, keys, k, esc, ev, env,
                     ev.(mode := Setting(if key.ty == 40 then key.num else parsed.mode, true, last)))
  {
  }

  /** A device with a node keeps its name, unless that is what it is given; the assignment can be final all the same. */
  lemma NameWritten(rules: seq<Rule>, r: nat, keys: seq<Key>, k: nat, esc: Escape, ev: Event, env: Env)
    requires r < |rules| && k < |keys| && keys[k].ty == 45
    ensures var last := keys[k].op == OpAssignFinal;
            var text := env.format(keys[k].value, ev.(nameFinal := last));
            var name := if esc == EscapeNone then text else env.replaced(text, [47]);
            if ev.nameFinal then GoesOn(rules, r, keys, k, esc, ev, env, ev)
            else if env.devMajor > 0 && name != env.devnode then
              GoesOn(rules, r, keys, k, esc, ev, env, ev.(nameFinal := last))
            else GoesOn(rules, r, keys, k, esc, ev, env, ev.(name := name, nameFinal := last))
  {
  }

  /** The names in a SYMLINK's formatted value; without string_escape slashes and spaces are not replaced. */
  function NamesIn(text: CStr, esc: Escape, env: Env): set<CStr> {
    if esc == EscapeNone then env.words(text)
    else if esc == EscapeReplace then env.words(env.replaced(text, [47]))
    else env.words(env.replaced(text, [47, 32]))
  }

  /** = and := leave the names given, any other operator adds them; devices without a node have no links. */
  lemma LinksWritten(rules: seq<Rule>, r: nat, keys: seq<Key>, k: nat, esc: Escape, ev: Event, env: Env)
    requires r < |rules| && k < |keys| && keys[k].ty == 46
    ensures var last, before := keys[k].op == OpAssignFinal, if Replaces(keys[k]) then {} else ev.devlinks;
            var names := NamesIn(env.format(keys[k].value, ev.(devlinks := before, devlinkFinal := last)), esc, env);
            if ev.devlinkFinal || env.devMajor == 0 then GoesOn(rules, r, keys, k, esc, ev, env, ev)
            else if keys[k].op in {OpAssign, OpAssignFinal} then
              GoesOn(rules, r, keys, k, esc, ev, env, ev.(devlinks := names, devlinkFinal := last))
            else GoesOn(rules, r, keys, k, esc, ev, env, ev.(devlinks := ev.devlinks + names, devlinkFinal := false))
  {
    var last, before := keys[k].op == OpAssignFinal, if Replaces(keys[k]) then {} else ev.devlinks;
    var names := NamesIn(env.format(keys[k].value, ev.(devlinks := before, devlinkFinal := last)), esc, env);
    assert before + names == if Replaces(keys[k]) then names else ev.devlinks + names;
    if !ev.devlinkFinal && env.devMajor > 0 {
      assert NewLinks(keys[k], esc, ev, env) == before + names;
    }
  }

  lemma WatchWritten(rules: seq<Rule>, r: nat, keys: seq<Key>, k: nat, esc: Escape, ev: Event, env: Env)
    requires r < |rules| && k < |keys| && keys[k].ty == 33
    ensures GoesOn(rules, r, keys, k, esc, ev, env,
                   if ev.watch.isFinal then ev
                   else ev.(watch := Setting(keys[k].num, true, keys[k].op == OpAssignFinal)))
  {
  }

  /** string_escape (30, 31) holds for the keys behind it; everything else changes the world alone. */
  lemma OtherWritten(rules: seq<Rule>, r: nat, keys: seq<Key>, k: nat, esc: Escape, ev: Event, env: Env)
    requires r < |rules| && k < |keys| && keys[k].ty !in {33, 35, 36, 37, 38, 39, 40, 45, 46, 50}
    ensures var o := Act(rules, r, keys, k, esc, ev, env);
            o == if keys[k].ty == 30 then Act(rules, r, keys, k + 1, EscapeNone, ev, env)
                 else if keys[k].ty == 31 then Act(rules, r, keys, k + 1, EscapeReplace, ev, env)
                 else Act(rules, r, keys, k + 1, esc, ev.(world := env.other(keys[k], esc, ev)), env)
  {
  }

  // ---- rules one after the other ----

  /** A rule with nothing but SYMLINK+=. */
  predicate OnlyAdds(rule: Rule, value: CStr) {
    |rule.keys| == 1 && rule.keys[0].ty == 46 && rule.keys[0].op == OpAdd && rule.keys[0].value == value
  }

  lemma RuleAdds(rules: seq<Rule>, r: nat, value: CStr, ev: Event, env: Env)
    requires r < |rules| && OnlyAdds(rules[r], value)
    requires env.canSetName && env.devMajor > 0 && !ev.devlinkFinal
    ensures RunRule(rules, r, ev, env) ==
            Outcome(r + 1, ev.(devlinks := ev.devlinks + env.words(env.replaced(env.format(value, ev), [47, 32]))))
  {
    var keys := Sorted(rules[r].keys);
    assert Without(rules[r].keys, 0) == [];
    assert keys == rules[r].keys;
    LinksWritten(rules, r, keys, 0, EscapeUnset, ev, env);
  }

  /** Two such rules, one after the other: the links of both are there in the end, and those from before. */
  lemma LinksAddUp(rules: seq<Rule>, r: nat, v: CStr, w: CStr, ev: Event, env: Env)
    requires |rules| == r + 2 && OnlyAdds(rules[r], v) && OnlyAdds(rules[r + 1], w)
    requires env.canSetName && env.devMajor > 0 && !ev.devlinkFinal
    ensures var links := ev.devlinks + env.words(env.replaced(env.format(v, ev), [47, 32]));
            Run(rules, r, ev, env).devlinks ==
            links + env.words(env.replaced(env.format(w, ev.(devlinks := links)), [47, 32]))
  {
    RuleAdds(rules, r, v, ev, env);
    var ev1 := RunRule(rules, r, ev, env).ev;
    RuleAdds(rules, r + 1, w, ev1, env);
    var ev2 := RunRule(rules, r + 1, ev1, env).ev;
    assert Run(rules, r + 1, ev1, env) == Run(rules, r + 2, ev2, env) == ev2;
  }
}
