/**
  Where the rules lie in the token array: block after block, and every GOTO with the
  index of the TK_RULE token to continue at.
  */
module RuleLayout {
  import opened CStrings
  import opened RuleTokens
  import opened RuleCompiler

  /** A rule as written, with the file it is from. */
  datatype Rule = Rule(file: nat, name: CStr, canSetName: bool, hasStaticNode: bool, keys: seq<Key>)

  ghost predicate WellFormed(rules: seq<Rule>) {
    forall r :: 0 <= r < |rules| ==> AllKeys(rules[r].keys) && |rules[r].keys| <= 64
  }

  /** The index of the r-th rule's TK_RULE token. */
  function Start(rules: seq<Rule>, r: nat): nat
    requires r <= |rules|
  {
    if r == 0 then 0 else Start(rules, r - 1) + 1 + |rules[r - 1].keys|
  }

  /** The first rule from m on that has the label and is from the file, or the number of rules. */
  function FirstLabel(rules: seq<Rule>, m: nat, file: nat, name: CStr): (found: nat)
    requires m <= |rules|
    ensures m <= found <= |rules|
    decreases |rules| - m
  {
    if m == |rules| || HasLabel(rules[m], file, name) then m else FirstLabel(rules, m + 1, file, name)
  }

  /** The empty label is no label. */
  predicate HasLabel(rule: Rule, file: nat, name: CStr) {
    rule.file == file && rule.name != [] && rule.name == name
  }

  /** What a GOTO in the r-th rule is linked to: 0 when there is no such label. */
  function Target(rules: seq<Rule>, r: nat, name: CStr): nat
    requires r < |rules|
  {
    var m := FirstLabel(rules, r + 1, rules[r].file, name);
    if m < |rules| then Start(rules, m) else 0
  }

  function Goto(rules: seq<Rule>, r: nat, key: Key, linked: bool): nat
    requires r < |rules|
  {
    if linked && key.ty == TK_A_GOTO then Target(rules, r, key.value) else 0
  }

  /** The token of the r-th rule's k-th key; below the bound a GOTO is linked. */
  ghost predicate KeyAt(tokens: seq<Token>, rules: seq<Rule>, r: nat, k: nat, bound: nat)
    requires r < |rules| && k < |rules[r].keys| && Start(rules, r) + |rules[r].keys| < |tokens|
  {
    var at, key := Start(rules, r) + 1 + k, Sorted(rules[r].keys)[k];
    tokens[at] == KeyToken(key, Goto(rules, r, key, at < bound))
  }

  /** The r-th rule's block. */
  ghost predicate BlockAt(tokens: seq<Token>, rules: seq<Rule>, r: nat, bound: nat)
    requires r < |rules|
  {
    var s, rule := Start(rules, r), rules[r];
    && s + |rule.keys| < |tokens|
    && tokens[s] == RuleToken(rule.canSetName, rule.hasStaticNode, 1 + |rule.keys|, rule.name)
    && forall k {:trigger KeyAt(tokens, rules, r, k, bound)} ::
         0 <= k < |rule.keys| ==> KeyAt(tokens, rules, r, k, bound)
  }

  ghost predicate Laid(tokens: seq<Token>, rules: seq<Rule>, bound: nat) {
    && |tokens| == Start(rules, |rules|)
    && forall r {:trigger BlockAt(tokens, rules, r, bound)} :: 0 <= r < |rules| ==> BlockAt(tokens, rules, r, bound)
  }

  lemma {:induction false} StartGrows(rules: seq<Rule>, r: nat, m: nat)
    requires r < m <= |rules|
    ensures Start(rules, r) + |rules[r].keys| < Start(rules, m)
    decreases m
  {
    if r < m - 1 {
      StartGrows(rules, r, m - 1);
    }
  }

  /** Every position belongs to one rule: to its token, or to one of its keys. */
  lemma {:induction false} Locate(rules: seq<Rule>, n: nat, i: nat) returns (r: nat)
    requires n <= |rules| && i < Start(rules, n)
    ensures r < n && Start(rules, r) <= i <= Start(rules, r) + |rules[r].keys|
    decreases n
  {
    if Start(rules, n - 1) <= i {
      r := n - 1;
    } else {
      r := Locate(rules, n - 1, i);
    }
  }

  lemma {:induction false} StartKept(rules: seq<Rule>, rule: Rule, r: nat)
    requires r <= |rules|
    ensures Start(rules + [rule], r) == Start(rules, r)
    decreases r
  {
    if r > 0 {
      StartKept(rules, rule, r - 1);
    }
  }

  /** A rule of another file is no target. */
  lemma {:induction false} FirstLabelKept(rules: seq<Rule>, rule: Rule, m: nat, file: nat, name: CStr)
    requires m <= |rules| && rule.file != file
    ensures var found, found' := FirstLabel(rules, m, file, name), FirstLabel(rules + [rule], m, file, name);
            if found < |rules| then found' == found else found' == |rules| + 1
    decreases |rules| - m
  {
    if m < |rules| && !HasLabel(rules[m], file, name) {
      FirstLabelKept(rules, rule, m + 1, file, name);
    }
  }

  lemma {:induction false} FirstLabelFacts(rules: seq<Rule>, m: nat, file: nat, name: CStr, found: nat)
    requires m <= found <= |rules|
    requires forall k :: m <= k < found ==> !HasLabel(rules[k], file, name)
    requires found < |rules| ==> HasLabel(rules[found], file, name)
    ensures FirstLabel(rules, m, file, name) == found
    decreases found - m
  {
    if m < found {
      FirstLabelFacts(rules, m + 1, file, name, found);
    }
  }

  lemma {:induction false} LabelFound(rules: seq<Rule>, m: nat, file: nat, name: CStr)
    requires m <= |rules|
    ensures var found := FirstLabel(rules, m, file, name);
            && (forall k :: m <= k < found ==> !HasLabel(rules[k], file, name))
            && (found < |rules| ==> HasLabel(rules[found], file, name))
    decreases |rules| - m
  {
    if m < |rules| && !HasLabel(rules[m], file, name) {
      LabelFound(rules, m + 1, file, name);
    }
  }

  // ---- a rule added at the end ----

  /** The linked GOTOs below the bound are all in earlier files. */
  ghost predicate OtherFiles(rules: seq<Rule>, file: nat, bound: nat) {
    forall r :: 0 <= r < |rules| && Start(rules, r) < bound ==> rules[r].file != file
  }

  lemma TargetKept(rules: seq<Rule>, rule: Rule, r: nat, name: CStr)
    requires r < |rules| && rule.file != rules[r].file
    ensures Target(rules + [rule], r, name) == Target(rules, r, name)
  {
    FirstLabelKept(rules, rule, r + 1, rules[r].file, name);
    StartKept(rules, rule, FirstLabel(rules, r + 1, rules[r].file, name));
  }

  lemma {:induction false} BlockKept(tokens: seq<Token>, rules: seq<Rule>, rule: Rule, bound: nat, more: seq<Token>,
                                     r: nat)
    requires Laid(tokens, rules, bound) && OtherFiles(rules, rule.file, bound) && r < |rules|
    ensures BlockAt(tokens + more, rules + [rule], r, bound)
  {
    var rules', s := rules + [rule], Start(rules, r);
    assert BlockAt(tokens, rules, r, bound);
    StartKept(rules, rule, r);
    forall k | 0 <= k < |rules[r].keys|
      ensures KeyAt(tokens + more, rules', r, k, bound)
    {
      assert KeyAt(tokens, rules, r, k, bound);
      if s < bound {
        TargetKept(rules, rule, r, Sorted(rules[r].keys)[k].value);
      }
    }
  }

  lemma BehindHead(tokens: seq<Token>, head: Token, emitted: seq<Token>, k: nat)
    requires k < |emitted|
    ensures (tokens + ([head] + emitted))[|tokens| + 1 + k] == emitted[k]
  {
  }

  lemma OneBlock(tokens: seq<Token>, head: Token, emitted: seq<Token>)
    ensures tokens + [head] + emitted == tokens + ([head] + emitted)
  {
  }

  lemma {:induction false} NewBlock(tokens: seq<Token>, rules: seq<Rule>, rule: Rule, bound: nat)
    requires |tokens| == Start(rules, |rules|) && bound <= |tokens|
    ensures BlockAt(tokens + ([RuleToken(rule.canSetName, rule.hasStaticNode, 1 + |rule.keys|, rule.name)]
                              + Emitted(Sorted(rule.keys), |rule.keys|)), rules + [rule], |rules|, bound)
  {
    StartKept(rules, rule, |rules|);
    var head := RuleToken(rule.canSetName, rule.hasStaticNode, 1 + |rule.keys|, rule.name);
    var emitted := Emitted(Sorted(rule.keys), |rule.keys|);
    forall k | 0 <= k < |rule.keys|
      ensures KeyAt(tokens + ([head] + emitted), rules + [rule], |rules|, k, bound)
    {
      EmittedAt(Sorted(rule.keys), |rule.keys|, k);
      BehindHead(tokens, head, emitted, k);
    }
  }

  lemma {:induction false} BlockAdded(tokens: seq<Token>, rules: seq<Rule>, rule: Rule, bound: nat, block: seq<Token>,
                                      tokens': seq<Token>, rules': seq<Rule>)
    requires Laid(tokens, rules, bound) && OtherFiles(rules, rule.file, bound)
    requires tokens' == tokens + block && |block| == 1 + |rule.keys| && rules' == rules + [rule]
    requires BlockAt(tokens', rules', |rules|, bound)
    ensures Laid(tokens', rules', bound)
  {
    StartKept(rules, rule, |rules|);
    forall r | 0 <= r < |rules'|
      ensures BlockAt(tokens', rules', r, bound)
    {
      if r < |rules| {
        BlockKept(tokens, rules, rule, bound, block, r);
      }
    }
  }

  lemma {:induction false} RuleAdded(tokens: seq<Token>, rules: seq<Rule>, rule: Rule, bound: nat)
    requires Laid(tokens, rules, bound) && OtherFiles(rules, rule.file, bound) && bound <= |tokens|
    ensures Laid(tokens + [RuleToken(rule.canSetName, rule.hasStaticNode, 1 + |rule.keys|, rule.name)]
                 + Emitted(Sorted(rule.keys), |rule.keys|), rules + [rule], bound)
  {
    var head := RuleToken(rule.canSetName, rule.hasStaticNode, 1 + |rule.keys|, rule.name);
    var emitted := Emitted(Sorted(rule.keys), |rule.keys|);
    OneBlock(tokens, head, emitted);
    NewBlock(tokens, rules, rule, bound);
    BlockAdded(tokens, rules, rule, bound, [head] + emitted, tokens + ([head] + emitted), rules + [rule]);
  }

  // ---- linking one position ----

  lemma SortedKeys(keys: seq<Key>, k: nat)
    requires AllKeys(keys) && k < |keys|
    ensures IsKey(Sorted(keys)[k])
  {
    SortedPermutation(keys);
    assert Sorted(keys)[k] in multiset(keys);
  }

  /** The token at a position, and which rule's it is. */
  lemma {:induction false} TokenAt(tokens: seq<Token>, rules: seq<Rule>, bound: nat, i: nat) returns (r: nat)
    requires WellFormed(rules) && Laid(tokens, rules, bound) && i < |tokens|
    ensures r < |rules| && Start(rules, r) <= i <= Start(rules, r) + |rules[r].keys|
    ensures Type(tokens[i]) == TK_RULE <==> i == Start(rules, r)
    ensures i == Start(rules, r) ==> tokens[i].RuleToken? && tokens[i].name == rules[r].name
    ensures i > Start(rules, r) ==>
              var key := Sorted(rules[r].keys)[i - Start(rules, r) - 1];
              IsKey(key) && tokens[i] == KeyToken(key, Goto(rules, r, key, i < bound))
  {
    r := Locate(rules, |rules|, i);
    assert BlockAt(tokens, rules, r, bound);
    if i > Start(rules, r) {
      assert KeyAt(tokens, rules, r, i - Start(rules, r) - 1, bound);
      SortedKeys(rules[r].keys, i - Start(rules, r) - 1);
    }
  }

  /** The token at the bound, which is rule r's, as linking leaves it. */
  ghost predicate LinkedAt(tokens: seq<Token>, rules: seq<Rule>, bound: nat, token: Token, r: nat) {
    && r < |rules| && Start(rules, r) <= bound <= Start(rules, r) + |rules[r].keys| && bound < |tokens|
    && (bound == Start(rules, r) ==> token == tokens[bound])
    && (bound > Start(rules, r) ==>
          var key := Sorted(rules[r].keys)[bound - Start(rules, r) - 1];
          token == KeyToken(key, Goto(rules, r, key, true)))
  }

  lemma {:induction false} BlockMoves(tokens: seq<Token>, rules: seq<Rule>, bound: nat, token: Token, r: nat, q: nat)
    requires q < |rules| && BlockAt(tokens, rules, q, bound) && LinkedAt(tokens, rules, bound, token, r)
    ensures BlockAt(tokens[bound := token], rules, q, bound + 1)
  {
    if q < r {
      StartGrows(rules, q, r);
    } else if r < q {
      StartGrows(rules, r, q);
    }
    var tokens', bound' := tokens[bound := token], bound + 1;
    forall k | 0 <= k < |rules[q].keys|
      ensures KeyAt(tokens', rules, q, k, bound')
    {
      assert KeyAt(tokens, rules, q, k, bound);
    }
  }

  /** With the token at the bound as linking leaves it, the bound moves on. */
  lemma {:induction false} BoundMoves(tokens: seq<Token>, rules: seq<Rule>, bound: nat, token: Token, r: nat)
    requires Laid(tokens, rules, bound) && LinkedAt(tokens, rules, bound, token, r)
    ensures Laid(tokens[bound := token], rules, bound + 1)
  {
    var tokens', bound' := tokens[bound := token], bound + 1;
    forall q | 0 <= q < |rules|
      ensures BlockAt(tokens', rules, q, bound')
    {
      assert BlockAt(tokens, rules, q, bound);
      BlockMoves(tokens, rules, bound, token, r, q);
    }
  }
}
