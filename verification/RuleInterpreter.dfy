/**
  udev_rules_apply_to_event() (src/core/udev-rules.c): one loop over the token array,
  with skips to the next rule and jumps.  It does what the rules mean.
  */
module RuleInterpreter {
  import opened CStrings
  import opened RuleTokens
  import opened RuleCompiler
  import opened RuleLayout
  import opened RuleSemantics

  /** The tokens of all rules, all GOTOs linked, and TK_END. */
  ghost predicate Compiled(tokens: seq<Token>, rules: seq<Rule>) {
    && WellFormed(rules)
    && |tokens| == Start(rules, |rules|) + 1
    && tokens[|tokens| - 1] == EndToken
    && Laid(tokens[..|tokens| - 1], rules, |tokens| - 1)
  }

  /** What is left to do inside the r-th rule, from its k-th key on. */
  ghost function Rest(rules: seq<Rule>, r: nat, k: nat, esc: Escape, ev: Event, env: Env): Event
    requires r < |rules| && k <= |rules[r].keys|
  {
    var keys := Sorted(rules[r].keys);
    var verdict := Passes(keys, k, ev, env);
    if verdict.pass then
      var o := Act(rules, r, keys, MatchCount(keys, k), esc, verdict.ev, env);
      Run(rules, o.next, o.ev, env)
    else Run(rules, r + 1, verdict.ev, env)
  }

  /** The token at a position of a rule. */
  lemma RuleTokenAt(tokens: seq<Token>, rules: seq<Rule>, r: nat)
    requires Compiled(tokens, rules) && r < |rules|
    ensures Start(rules, r) < |tokens| - 1
    ensures tokens[Start(rules, r)] ==
            RuleToken(rules[r].canSetName, rules[r].hasStaticNode, 1 + |rules[r].keys|, rules[r].name)
    ensures Start(rules, r + 1) == Start(rules, r) + 1 + |rules[r].keys| <= |tokens| - 1
  {
    assert BlockAt(tokens[..|tokens| - 1], rules, r, |tokens| - 1);
  }

  lemma KeyTokenAt(tokens: seq<Token>, rules: seq<Rule>, r: nat, k: nat)
    requires Compiled(tokens, rules) && r < |rules| && k < |rules[r].keys|
    ensures Start(rules, r) + 1 + k < |tokens| - 1
    ensures var key := Sorted(rules[r].keys)[k];
            IsKey(key) && tokens[Start(rules, r) + 1 + k] == KeyToken(key, Goto(rules, r, key, true))
  {
    assert BlockAt(tokens[..|tokens| - 1], rules, r, |tokens| - 1);
    assert KeyAt(tokens[..|tokens| - 1], rules, r, k, |tokens| - 1);
    SortedKeys(rules[r].keys, k);
  }

  /** Behind the last key the next rule begins. */
  lemma RestAtEnd(rules: seq<Rule>, r: nat, esc: Escape, ev: Event, env: Env)
    requires r < |rules|
    ensures Rest(rules, r, |rules[r].keys|, esc, ev, env) == Run(rules, r + 1, ev, env)
  {
  }

  lemma RestAtRule(rules: seq<Rule>, r: nat, ev: Event, env: Env)
    requires r < |rules|
    ensures Run(rules, r, ev, env) ==
            if !env.canSetName && rules[r].canSetName then Run(rules, r + 1, ev, env)
            else Rest(rules, r, 0, EscapeUnset, ev, env)
  {
  }

  /** A match, parent matches aside. */
  lemma RestAtMatch(rules: seq<Rule>, r: nat, k: nat, esc: Escape, ev: Event, env: Env)
    requires r < |rules| && k < |rules[r].keys|
    requires var ty := Sorted(rules[r].keys)[k].ty; IsMatch(ty) && !IsParents(ty)
    ensures var test := env.matches(Sorted(rules[r].keys)[k], EscapeUnset, ev);
            Rest(rules, r, k, esc, ev, env) ==
            if test.pass then Rest(rules, r, k + 1, esc, ev.(world := test.world), env)
            else Run(rules, r + 1, ev.(world := test.world), env)
  {
  }

  lemma {:induction false} MatchCountSkips(keys: seq<Key>, k: nat)
    requires k <= |keys|
    ensures MatchCount(keys, ParentsEnd(keys, k)) == MatchCount(keys, k)
    decreases |keys| - k
  {
    if k < |keys| && IsParents(keys[k].ty) {
      MatchCountSkips(keys, k + 1);
    }
  }

  /** A sequence of parent matches. */
  lemma RestAtParents(rules: seq<Rule>, r: nat, k: nat, esc: Escape, ev: Event, env: Env)
    requires r < |rules| && k < |rules[r].keys| && IsParents(Sorted(rules[r].keys)[k].ty)
    ensures var n := ParentsEnd(Sorted(rules[r].keys), k);
            var device := FirstParent(Sorted(rules[r].keys), k, n, 0, ev, env);
            Rest(rules, r, k, esc, ev, env) ==
            if device < env.devices then Rest(rules, r, n, esc, ev.(devParent := Parent(device)), env)
            else Run(rules, r + 1, ev.(devParent := NoParent), env)
  {
    MatchCountSkips(Sorted(rules[r].keys), k);
  }

  /** An assignment: matches are over. */
  lemma RestAtAssignment(rules: seq<Rule>, r: nat, k: nat, esc: Escape, ev: Event, env: Env)
    requires r < |rules| && k < |rules[r].keys| && IsAssignment(Sorted(rules[r].keys)[k].ty)
    ensures var o := Act(rules, r, Sorted(rules[r].keys), k, esc, ev, env);
            Rest(rules, r, k, esc, ev, env) == Run(rules, o.next, o.ev, env)
  {
  }

  /** Once the matches are over they stay over. */
  lemma OnlyAssignments(keys: seq<Key>, k: nat, n: nat)
    requires AllKeys(keys) && k <= n < |keys| && IsAssignment(Sorted(keys)[k].ty)
    ensures IsAssignment(Sorted(keys)[n].ty)
  {
    SortedByType(keys);
    SortedKeys(keys, n);
  }

  // ---- where the loop stands ----

  datatype Place = AtRule(r: nat) | InRule(r: nat, k: nat)

  /** The token looked at, the rule it belongs to; string_escape is only set once matches are over. */
  ghost predicate Stands(rules: seq<Rule>, p: Place, cur: nat, rule: nat, esc: Escape) {
    match p
    case AtRule(r) => r <= |rules| && cur == Start(rules, r)
    case InRule(r, k) =>
      && r < |rules| && k < |rules[r].keys|
      && cur == Start(rules, r) + 1 + k && rule == Start(rules, r)
      && (IsMatch(Sorted(rules[r].keys)[k].ty) ==> esc == EscapeUnset)
  }

  /** What will have become of the event in the end. */
  ghost function Outlook(rules: seq<Rule>, p: Place, esc: Escape, ev: Event, env: Env): Event
    requires match p case AtRule(r) => r <= |rules| case InRule(r, k) => r < |rules| && k < |rules[r].keys|
  {
    match p
    case AtRule(r) => Run(rules, r, ev, env)
    case InRule(r, k) => Rest(rules, r, k, esc, ev, env)
  }

  /** The place of the n-th key of a rule; behind the last key it is the next rule's. */
  ghost function PlaceOf(rules: seq<Rule>, r: nat, n: nat): Place
    requires r < |rules| && n <= |rules[r].keys|
  {
    if n < |rules[r].keys| then InRule(r, n) else AtRule(r + 1)
  }

  lemma Advance(tokens: seq<Token>, rules: seq<Rule>, r: nat, n: nat, esc: Escape, ev: Event, env: Env)
    requires Compiled(tokens, rules) && r < |rules| && n <= |rules[r].keys|
    requires n < |rules[r].keys| && IsMatch(Sorted(rules[r].keys)[n].ty) ==> esc == EscapeUnset
    ensures Stands(rules, PlaceOf(rules, r, n), Start(rules, r) + 1 + n, Start(rules, r), esc)
    ensures Outlook(rules, PlaceOf(rules, r, n), esc, ev, env) == Rest(rules, r, n, esc, ev, env)
  {
    RuleTokenAt(tokens, rules, r);
    if n == |rules[r].keys| {
      RestAtEnd(rules, r, esc, ev, env);
    }
  }

  /** The token of a rule's k-th key. */
  method TokenOf(rules: Rules, cur: nat, ghost all: seq<Rule>, ghost r: nat, ghost k: nat) returns (token: Token)
    requires rules.Valid() && Compiled(rules.Contents(), all) && r < |all| && k < |all[r].keys|
    requires cur == Start(all, r) + 1 + k
    ensures cur + 1 < rules.tokenCur
    ensures var key := Sorted(all[r].keys)[k]; IsKey(key) && token == KeyToken(key, Goto(all, r, key, true))
  {
    KeyTokenAt(rules.Contents(), all, r, k);
    assert rules.tokens[cur] == rules.Contents()[cur];
    token := rules.tokens[cur];
  }

  /** The loop over the keys of a sequence of parent matches, for one device. */
  method TestParent(rules: Rules, cur: nat, next: nat, device: nat, ev: Event, env: Env,
                    ghost all: seq<Rule>, ghost r: nat, ghost k: nat, ghost n: nat) returns (pass: bool)
    requires rules.Valid() && Compiled(rules.Contents(), all) && r < |all| && k < n <= |all[r].keys|
    requires cur == Start(all, r) + 1 + k && next == Start(all, r) + 1 + n
    ensures pass <==> ParentPasses(Sorted(all[r].keys), k, n, device, ev, env)
  {
    ghost var keys, i := Sorted(all[r].keys), k;
    var first := TokenOf(rules, cur, all, r, k);
    var key := cur;
    while key < next
      invariant k <= i <= n && key == Start(all, r) + 1 + i
      invariant forall j :: k <= j < i ==> env.parentMatches(keys[k], keys[j], device, ev.(devParent := Parent(device)))
    {
      var token := TokenOf(rules, key, all, r, i);
      if !env.parentMatches(first.key, token.key, device, ev.(devParent := Parent(device))) {
        return false;
      }
      key := key + 1;
      i := i + 1;
    }
    return true;
  }

  lemma NextParent(keys: seq<Key>, k: nat, n: nat, device: nat, ev: Event, env: Env)
    requires k <= n <= |keys| && device < env.devices
    ensures FirstParent(keys, k, n, device, ev, env) ==
            if ParentPasses(keys, k, n, device, ev, env) then device
            else if device + 1 == env.devices then env.devices
            else FirstParent(keys, k, n, device + 1, ev, env)
  {
  }

  /** The case of parent matches: up from the device until one passes them all. */
  method MatchParents(rules: Rules, cur: nat, ev: Event, env: Env, ghost all: seq<Rule>, ghost r: nat, ghost k: nat)
    returns (next: nat, pass: bool, ev': Event)
    requires rules.Valid() && Compiled(rules.Contents(), all) && r < |all| && k < |all[r].keys|
    requires cur == Start(all, r) + 1 + k && IsParents(Sorted(all[r].keys)[k].ty) && env.devices > 0
    ensures var n := ParentsEnd(Sorted(all[r].keys), k);
            var device := FirstParent(Sorted(all[r].keys), k, n, 0, ev, env);
            && next == Start(all, r) + 1 + n
            && (pass <==> device < env.devices)
            && ev' == ev.(devParent := if pass then Parent(device) else NoParent)
  {
    ghost var keys := Sorted(all[r].keys);
    ghost var n := ParentsEnd(keys, k);
    next := EndOfParents(rules, cur, all, r, k);
    var device := 0;
    while true
      invariant device < env.devices
      invariant FirstParent(keys, k, n, device, ev, env) == FirstParent(keys, k, n, 0, ev, env)
      decreases env.devices - device
    {
      pass := TestParent(rules, cur, next, device, ev, env, all, r, k, n);
      NextParent(keys, k, n, device, ev, env);
      if pass {
        return next, true, ev.(devParent := Parent(device));
      }
      device := device + 1;
      if device == env.devices {
        return next, false, ev.(devParent := NoParent);
      }
    }
  }

  method EndOfParents(rules: Rules, cur: nat, ghost all: seq<Rule>, ghost r: nat, ghost k: nat) returns (next: nat)
    requires rules.Valid() && Compiled(rules.Contents(), all) && r < |all| && k < |all[r].keys|
    requires cur == Start(all, r) + 1 + k && IsParents(Sorted(all[r].keys)[k].ty)
    ensures next == Start(all, r) + 1 + ParentsEnd(Sorted(all[r].keys), k) > cur
  {
    ghost var keys := Sorted(all[r].keys);
    ghost var n := k + 1;
    next := cur + 1;
    var ty := TypeBehind(rules, next, all, r, n);
    while IsParents(ty)
      invariant k < n <= |keys| && next == Start(all, r) + 1 + n
      invariant ParentsEnd(keys, n) == ParentsEnd(keys, k)
      invariant n < |keys| ==> ty == keys[n].ty
      invariant n == |keys| ==> !IsParents(ty)
      decreases |keys| - n
    {
      n := n + 1;
      next := next + 1;
      ty := TypeBehind(rules, next, all, r, n);
    }
  }

  /** The type of the token behind a rule's first n keys. */
  method TypeBehind(rules: Rules, next: nat, ghost all: seq<Rule>, ghost r: nat, ghost n: nat) returns (ty: nat)
    requires rules.Valid() && Compiled(rules.Contents(), all) && r < |all| && n <= |all[r].keys|
    requires next == Start(all, r) + 1 + n
    ensures n < |all[r].keys| ==> ty == Sorted(all[r].keys)[n].ty
    ensures n == |all[r].keys| ==> !IsParents(ty)
  {
    NotParents(rules.Contents(), all, r, n);
    assert rules.tokens[next] == rules.Contents()[next];
    ty := Type(rules.tokens[next]);
  }

  /** The token behind a key: the next key, or TK_RULE, or TK_END. */
  lemma NotParents(tokens: seq<Token>, rules: seq<Rule>, r: nat, n: nat)
    requires Compiled(tokens, rules) && r < |rules| && n <= |rules[r].keys|
    ensures Start(rules, r) + 1 + n < |tokens|
    ensures n < |rules[r].keys| ==> Type(tokens[Start(rules, r) + 1 + n]) == Sorted(rules[r].keys)[n].ty
    ensures n == |rules[r].keys| ==> !IsParents(Type(tokens[Start(rules, r) + 1 + n]))
  {
    RuleTokenAt(tokens, rules, r);
    if n < |rules[r].keys| {
      KeyTokenAt(tokens, rules, r, n);
    } else if r + 1 < |rules| {
      RuleTokenAt(tokens, rules, r + 1);
    }
  }

  // ---- the cases of the loop ----

  /** TK_RULE */
  method AtRuleToken(rules: Rules, cur: nat, esc: Escape, ev: Event, env: Env, ghost all: seq<Rule>, ghost r: nat)
    returns (cur': nat, esc': Escape, ghost p: Place)
    requires rules.Valid() && Compiled(rules.Contents(), all) && r < |all| && cur == Start(all, r)
    ensures cur < cur' < rules.tokenCur
    ensures Stands(all, p, cur', cur, esc')
    ensures Outlook(all, p, esc', ev, env) == Run(all, r, ev, env)
  {
    RuleTokenAt(rules.Contents(), all, r);
    RestAtRule(all, r, ev, env);
    assert rules.tokens[cur] == rules.Contents()[cur];
    if !env.canSetName && rules.tokens[cur].canSetName {
      cur', esc' := cur + rules.tokens[cur].tokenCount, esc;
      p := AtRule(r + 1);
    } else {
      cur', esc' := cur + 1, EscapeUnset;
      p := PlaceOf(all, r, 0);
      Advance(rules.Contents(), all, r, 0, EscapeUnset, ev, env);
    }
  }

  /** The test of a match, or of a sequence of parent matches; n is the key behind it. */
  method TestMatch(rules: Rules, cur: nat, esc: Escape, ev: Event, env: Env, ghost all: seq<Rule>, ghost r: nat,
                   ghost k: nat)
    returns (cur': nat, pass: bool, ev': Event, ghost n: nat)
    requires rules.Valid() && Compiled(rules.Contents(), all) && env.devices > 0
    requires r < |all| && k < |all[r].keys| && cur == Start(all, r) + 1 + k
    requires IsMatch(Sorted(all[r].keys)[k].ty) && esc == EscapeUnset
    ensures k < n <= |all[r].keys| && cur' == Start(all, r) + 1 + n
    ensures Rest(all, r, k, esc, ev, env) == if pass then Rest(all, r, n, esc, ev', env) else Run(all, r + 1, ev', env)
  {
    var token := TokenOf(rules, cur, all, r, k);
    n := k + 1;
    if IsParents(Type(token)) {
      n := ParentsEnd(Sorted(all[r].keys), k);
      RestAtParents(all, r, k, esc, ev, env);
      cur', pass, ev' := MatchParents(rules, cur, ev, env, all, r, k);
    } else {
      RestAtMatch(all, r, k, esc, ev, env);
      var test := env.matches(token.key, esc, ev);
      cur', pass, ev' := cur + 1, test.pass, ev.(world := test.world);
    }
  }

  /** A match: on to the next token, or to the next rule. */
  method AtMatch(rules: Rules, cur: nat, rule: nat, esc: Escape, ev: Event, env: Env,
                 ghost all: seq<Rule>, ghost r: nat, ghost k: nat)
    returns (cur': nat, ev': Event, ghost p: Place)
    requires rules.Valid() && Compiled(rules.Contents(), all) && env.devices > 0
    requires r < |all| && k < |all[r].keys| && Stands(all, InRule(r, k), cur, rule, esc)
    requires IsMatch(Sorted(all[r].keys)[k].ty)
    ensures cur < cur' < rules.tokenCur
    ensures Stands(all, p, cur', rule, esc)
    ensures Outlook(all, p, esc, ev', env) == Rest(all, r, k, esc, ev, env)
  {
    var pass;
    ghost var n;
    cur', pass, ev', n := TestMatch(rules, cur, esc, ev, env, all, r, k);
    RuleTokenAt(rules.Contents(), all, r);
    if pass {
      p := PlaceOf(all, r, n);
      Advance(rules.Contents(), all, r, n, esc, ev', env);
    } else {
      assert rules.tokens[rule] == rules.Contents()[rule];
      cur' := rule + rules.tokens[rule].tokenCount;
      p := AtRule(r + 1);
    }
  }

  /** The cases of OWNER, GROUP and MODE, by name or number, and of the watch flag. */
  method WriteSetting(key: Key, ev: Event, env: Env) returns (ev': Event)
    requires key.ty in {TK_A_OWNER, TK_A_OWNER_ID, TK_A_GROUP, TK_A_GROUP_ID, TK_A_MODE, TK_A_MODE_ID,
                        TK_A_INOTIFY_WATCH}
    ensures ev' == Assign(key, EscapeUnset, ev, env)
  {
    ev' := ev;
    var last := key.op == OpAssignFinal;
    if key.ty == TK_A_OWNER || key.ty == TK_A_OWNER_ID {
      if !ev.owner.isFinal {
        ev' := ev.(owner := ev.owner.(isFinal := last));
        var uid := if key.ty == TK_A_OWNER_ID then key.num else env.user(env.format(key.value, ev'));
        ev' := ev'.(owner := Setting(uid, true, last));
      }
    } else if key.ty == TK_A_GROUP || key.ty == TK_A_GROUP_ID {
      if !ev.group.isFinal {
        ev' := ev.(group := ev.group.(isFinal := last));
        var gid := if key.ty == TK_A_GROUP_ID then key.num else env.group(env.format(key.value, ev'));
        ev' := ev'.(group := Setting(gid, true, last));
      }
    } else if key.ty == TK_A_INOTIFY_WATCH {
      if !ev.watch.isFinal {
        ev' := ev.(watch := Setting(key.num, true, last));
      }
    } else if !ev.mode.isFinal {
      var parsed := if key.ty == TK_A_MODE_ID then Octal(0) else env.octal(env.format(key.value, ev));
      if parsed.Octal? {
        ev' := ev.(mode := Setting(if key.ty == TK_A_MODE_ID then key.num else parsed.mode, true, last));
      }
    }
  }

  /** The case of NAME. */
  method WriteName(key: Key, esc: Escape, ev: Event, env: Env) returns (ev': Event)
    requires key.ty == TK_A_NAME
    ensures ev' == Assign(key, esc, ev, env)
  {
    ev' := ev;
    if !ev.nameFinal {
      ev' := ev.(nameFinal := key.op == OpAssignFinal);
      var name := env.format(key.value, ev');
      if esc == EscapeUnset || esc == EscapeReplace {
        name := env.replaced(name, [47]);
      }
      if !(env.devMajor > 0 && name != env.devnode) {
        ev' := ev'.(name := name);
      }
    }
  }

  /** The case of SYMLINK. */
  method WriteLinks(key: Key, esc: Escape, ev: Event, env: Env) returns (ev': Event)
    requires key.ty == TK_A_DEVLINK
    ensures ev' == Assign(key, esc, ev, env)
  {
    ev' := ev;
    if !ev.devlinkFinal && env.devMajor > 0 {
      ev' := ev.(devlinkFinal := key.op == OpAssignFinal);
      if key.op == OpAssign || key.op == OpAssignFinal {
        ev' := ev'.(devlinks := {});
      }
      var temp := env.format(key.value, ev');
      if esc == EscapeUnset {
        temp := env.replaced(temp, [47, 32]);
      } else if esc == EscapeReplace {
        temp := env.replaced(temp, [47]);
      }
      ev' := ev'.(devlinks := ev'.devlinks + env.words(temp));
    }
  }

  /** What an assignment writes, GOTO and string_escape aside. */
  method Write(key: Key, esc: Escape, ev: Event, env: Env) returns (ev': Event)
    ensures ev' == Assign(key, esc, ev, env)
  {
    if key.ty == TK_A_NAME {
      ev' := WriteName(key, esc, ev, env);
    } else if key.ty == TK_A_DEVLINK {
      ev' := WriteLinks(key, esc, ev, env);
    } else if key.ty in {TK_A_OWNER, TK_A_OWNER_ID, TK_A_GROUP, TK_A_GROUP_ID, TK_A_MODE, TK_A_MODE_ID,
                         TK_A_INOTIFY_WATCH} {
      ev' := WriteSetting(key, ev, env);
    } else {
      ev' := ev.(world := env.other(key, esc, ev));
    }
  }

  /** An assignment: on to the next token, or for a linked GOTO to its rule. */
  method AtAssignment(rules: Rules, cur: nat, rule: nat, esc: Escape, ev: Event, env: Env,
                      ghost all: seq<Rule>, ghost r: nat, ghost k: nat)
    returns (cur': nat, esc': Escape, ev': Event, ghost p: Place)
    requires rules.Valid() && Compiled(rules.Contents(), all)
    requires r < |all| && k < |all[r].keys| && Stands(all, InRule(r, k), cur, rule, esc)
    requires IsAssignment(Sorted(all[r].keys)[k].ty)
    ensures cur < cur' < rules.tokenCur
    ensures Stands(all, p, cur', rule, esc')
    ensures Outlook(all, p, esc', ev', env) == Rest(all, r, k, esc, ev, env)
  {
    var token := TokenOf(rules, cur, all, r, k);
    var key := token.key;
    if key.ty == TK_A_GOTO && token.goto != 0 {
      cur', esc', ev' := token.goto, esc, ev;
      p := Jump(rules.Contents(), all, r, k, cur, token.goto, rule, esc, ev, env);
      return;
    }
    esc', ev' := esc, ev;
    if key.ty == TK_A_STRING_ESCAPE_NONE {
      esc' := EscapeNone;
    } else if key.ty == TK_A_STRING_ESCAPE_REPLACE {
      esc' := EscapeReplace;
    } else if key.ty != TK_A_GOTO {
      ev' := Write(key, esc, ev, env);
    }
    cur' := cur + 1;
    p := NextKey(rules.Contents(), all, r, k, token, rule, esc, esc', ev, ev', env);
  }

  /** A linked GOTO leads to the rule with its label. */
  lemma Jump(tokens: seq<Token>, rules: seq<Rule>, r: nat, k: nat, cur: nat, goto: nat, rule: nat, esc: Escape,
             ev: Event, env: Env) returns (p: Place)
    requires Compiled(tokens, rules) && r < |rules| && k < |rules[r].keys| && Sorted(rules[r].keys)[k].ty == TK_A_GOTO
    requires cur == Start(rules, r) + 1 + k && goto == Target(rules, r, Sorted(rules[r].keys)[k].value) != 0
    ensures cur < goto < |tokens|
    ensures Stands(rules, p, goto, rule, esc)
    ensures Outlook(rules, p, esc, ev, env) == Rest(rules, r, k, esc, ev, env)
  {
    var m := FirstLabel(rules, r + 1, rules[r].file, Sorted(rules[r].keys)[k].value);
    Jumps(tokens, rules, r, m);
    p := AtRule(m);
    RestAtAssignment(rules, r, k, esc, ev, env);
  }

  /** Any other assignment leads to the next key, or to the next rule. */
  lemma NextKey(tokens: seq<Token>, rules: seq<Rule>, r: nat, k: nat, token: Token, rule: nat, esc: Escape,
                esc': Escape, ev: Event, ev': Event, env: Env) returns (p: Place)
    requires Compiled(tokens, rules) && r < |rules| && k < |rules[r].keys| && rule == Start(rules, r)
    requires var key := Sorted(rules[r].keys)[k];
             && IsAssignment(key.ty) && token == KeyToken(key, Goto(rules, r, key, true))
             && (key.ty == TK_A_GOTO ==> token.goto == 0)
             && esc' == (if key.ty == TK_A_STRING_ESCAPE_NONE then EscapeNone
                         else if key.ty == TK_A_STRING_ESCAPE_REPLACE then EscapeReplace else esc)
             && ev' == (if key.ty in {TK_A_GOTO, TK_A_STRING_ESCAPE_NONE, TK_A_STRING_ESCAPE_REPLACE} then ev
                        else Assign(key, esc, ev, env))
    ensures Start(rules, r) + 1 + k + 1 < |tokens|
    ensures Stands(rules, p, Start(rules, r) + 1 + k + 1, rule, esc')
    ensures Outlook(rules, p, esc', ev', env) == Rest(rules, r, k, esc, ev, env)
  {
    RuleTokenAt(tokens, rules, r);
    if Sorted(rules[r].keys)[k].ty == TK_A_GOTO {
      Lands(rules, r, Sorted(rules[r].keys)[k].value);
    }
    p := PlaceOf(rules, r, k + 1);
    AfterAssignment(rules, r, k, esc, esc', ev, ev', env);
    Advance(tokens, rules, r, k + 1, esc', ev', env);
  }

  /** A rule further on begins behind the rule's last key. */
  lemma Jumps(tokens: seq<Token>, rules: seq<Rule>, r: nat, m: nat)
    requires Compiled(tokens, rules) && r < m < |rules|
    ensures Start(rules, r) + |rules[r].keys| < Start(rules, m) < |tokens|
  {
    StartGrows(rules, r, m);
    RuleTokenAt(tokens, rules, m);
  }

  /** A GOTO linked to 0 has no label to go to. */
  lemma Lands(rules: seq<Rule>, r: nat, name: CStr)
    requires r < |rules| && Target(rules, r, name) == 0
    ensures FirstLabel(rules, r + 1, rules[r].file, name) == |rules|
  {
    var m := FirstLabel(rules, r + 1, rules[r].file, name);
    if m < |rules| {
      StartGrows(rules, r, m);
    }
  }

  /** What is left after an assignment that does not jump. */
  lemma AfterAssignment(rules: seq<Rule>, r: nat, k: nat, esc: Escape, esc': Escape, ev: Event, ev': Event, env: Env)
    requires r < |rules| && k < |rules[r].keys| && AllKeys(rules[r].keys)
    requires var keys := Sorted(rules[r].keys);
             IsAssignment(keys[k].ty) && Act(rules, r, keys, k, esc, ev, env) ==
               Act(rules, r, keys, k + 1, esc', ev', env)
    ensures Rest(rules, r, k, esc, ev, env) == Rest(rules, r, k + 1, esc', ev', env)
    ensures k + 1 < |rules[r].keys| ==> !IsMatch(Sorted(rules[r].keys)[k + 1].ty)
  {
    if k + 1 < |rules[r].keys| {
      OnlyAssignments(rules[r].keys, k, k + 1);
    }
  }

  /** What the token at the place is. */
  lemma TokenThere(tokens: seq<Token>, rules: seq<Rule>, p: Place, cur: nat, rule: nat, esc: Escape)
    requires Compiled(tokens, rules) && Stands(rules, p, cur, rule, esc) && cur < |tokens|
    ensures p.InRule? ==> Type(tokens[cur]) == Sorted(rules[p.r].keys)[p.k].ty && IsKey(Sorted(rules[p.r].keys)[p.k])
    ensures p.AtRule? ==> Type(tokens[cur]) == if p.r < |rules| then TK_RULE else TK_END
  {
    if p.InRule? {
      KeyTokenAt(tokens, rules, p.r, p.k);
    } else if p.r < |rules| {
      RuleTokenAt(tokens, rules, p.r);
    }
  }

  /** One turn of the loop, up to the TK_END. */
  method Turn(rules: Rules, cur: nat, rule: nat, esc: Escape, ev: Event, env: Env, ghost all: seq<Rule>, ghost p: Place)
    returns (more: bool, cur': nat, rule': nat, esc': Escape, ev': Event, ghost p': Place)
    requires rules.Valid() && Compiled(rules.Contents(), all) && env.devices > 0
    requires cur < rules.tokenCur && Stands(all, p, cur, rule, esc)
    ensures more ==> cur < cur' < rules.tokenCur && Stands(all, p', cur', rule', esc')
    ensures more ==> Outlook(all, p', esc', ev', env) == Outlook(all, p, esc, ev, env)
    ensures !more ==> ev' == ev == Outlook(all, p, esc, ev, env)
  {
    TokenThere(rules.Contents(), all, p, cur, rule, esc);
    assert rules.tokens[cur] == rules.Contents()[cur];
    more, cur', rule', esc', ev', p' := true, cur, rule, esc, ev, p;
    var ty := Type(rules.tokens[cur]);
    if ty == TK_RULE {
      rule' := cur;
      cur', esc', p' := AtRuleToken(rules, cur, esc, ev, env, all, p.r);
    } else if ty == TK_END {
      more := false;
    } else if IsMatch(ty) {
      cur', ev', p' := AtMatch(rules, cur, rule, esc, ev, env, all, p.r, p.k);
    } else {
      cur', esc', ev', p' := AtAssignment(rules, cur, rule, esc, ev, env, all, p.r, p.k);
    }
  }

  /**
    udev_rules_apply_to_event(): the loop ends, every token it looks at is there, and
    the event becomes what the rules, read as rules, make of it.
    */
  method ApplyToEvent(rules: Rules, event: Event, env: Env, ghost all: seq<Rule>) returns (ev: Event)
    requires rules.Valid() && Compiled(rules.Contents(), all) && env.devices > 0
    ensures ev == Run(all, 0, event, env)
  {
    var cur, rule, esc := 0, 0, EscapeUnset;
    ghost var p := AtRule(0);
    ev := event;
    while true
      invariant cur < rules.tokenCur && Stands(all, p, cur, rule, esc)
      invariant Outlook(all, p, esc, ev, env) == Run(all, 0, event, env)
      decreases rules.tokenCur - cur
    {
      var more;
      more, cur, rule, esc, ev, p := Turn(rules, cur, rule, esc, ev, env, all, p);
      if !more {
        return;
      }
    }
  }
}
