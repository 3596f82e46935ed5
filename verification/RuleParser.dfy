/**
  Reading rules files: add_rule(), parse_file() with its linking of GOTOs, rules_load()
  (src/core/udev-rules.c).  What the text of a line means is not modelled: a line is
  its label, its flags and its keys in the order written.
  */
module RuleParser {
  import opened CStrings
  import opened RuleTokens
  import opened RuleCompiler
  import opened RuleLayout

  const PREALLOC_TOKEN: nat := 2048

  /** The loop of add_rule() over the keys of a line. */
  method ReadKeys(rule: Rule) returns (tmp: RuleTmp)
    requires AllKeys(rule.keys) && |rule.keys| <= 64
    ensures fresh(tmp) && fresh(tmp.token) && tmp.Valid() && tmp.Keys() == rule.keys
    ensures tmp.canSetName == rule.canSetName && tmp.hasStaticNode == rule.hasStaticNode && tmp.name == rule.name
  {
    tmp := new RuleTmp(rule.canSetName, rule.hasStaticNode, rule.name);
    for i := 0 to |rule.keys|
      invariant fresh(tmp) && fresh(tmp.token) && tmp.Valid() && tmp.tokenCur == i && tmp.Keys() == rule.keys[..i]
      invariant tmp.canSetName == rule.canSetName && tmp.hasStaticNode == rule.hasStaticNode && tmp.name == rule.name
    {
      tmp.AddKey(rule.keys[i]);
    }
    assert rule.keys[..|rule.keys|] == rule.keys;
  }

  lemma RuleEmitted(before: seq<Token>, all: seq<Rule>, rule: Rule, bound: nat, token: Token, n: nat,
                    tokens: seq<Token>)
    requires Laid(before, all, bound) && OtherFiles(all, rule.file, bound) && bound <= |before|
    requires n == |rule.keys| && token == RuleToken(rule.canSetName, rule.hasStaticNode, 1 + n, rule.name)
    requires tokens == before + [token] + Emitted(Sorted(rule.keys), n)
    ensures Laid(tokens, all + [rule], bound) && |tokens| >= |before|
  {
    RuleAdded(before, all, rule, bound);
  }

  /** add_rule() */
  method AddRule(rules: Rules, rule: Rule, ghost all: seq<Rule>, ghost bound: nat)
    requires rules.Valid() && AllKeys(rule.keys) && |rule.keys| <= 64
    requires Laid(rules.Contents(), all, bound) && OtherFiles(all, rule.file, bound) && bound <= rules.tokenCur
    modifies rules, rules.tokens
    ensures rules.Valid() && (rules.tokens == old(rules.tokens) || fresh(rules.tokens))
    ensures Laid(rules.Contents(), all + [rule], bound) && rules.tokenCur >= old(rules.tokenCur)
  {
    ghost var before := rules.Contents();
    var tmp := ReadKeys(rule);
    var token := RuleToken(tmp.canSetName, tmp.hasStaticNode, 1 + tmp.tokenCur, tmp.name);
    rules.AddToken(token);
    rules.SortToken(tmp);
    RuleEmitted(before, all, rule, bound, token, tmp.tokenCur, rules.Contents());
  }

  /** Between the start of a rule and the start of the next there is no other. */
  lemma Between(all: seq<Rule>, m: nat, j: nat, q: nat)
    requires 0 < m <= |all| && q < |all| && Start(all, q) <= j <= Start(all, q) + |all[q].keys|
    requires Start(all, m - 1) < j && (m < |all| ==> j <= Start(all, m))
    ensures m < |all| && j == Start(all, m) ==> q == m
    ensures m == |all| || j < Start(all, m) ==> q == m - 1
  {
    if q < m - 1 {
      StartGrows(all, q, m - 1);
    } else if m < q {
      StartGrows(all, m, q);
    }
    if m < |all| && q == m - 1 {
      StartGrows(all, m - 1, m);
    }
  }

  /** The inner loop of the linking: the next rule with the label, up to the end of the tokens. */
  method FindLabel(rules: Rules, i: nat, ghost r: nat, ghost all: seq<Rule>, ghost first: nat) returns (goto: nat)
    requires rules.Valid() && WellFormed(all) && Laid(rules.Contents(), all, i)
    requires first <= r < |all| && (forall q :: first <= q < |all| ==> all[q].file == all[r].file)
    requires Start(all, r) < i <= Start(all, r) + |all[r].keys| && i < rules.tokenCur && rules.Contents()[i].KeyToken?
    ensures goto == Target(all, r, rules.Contents()[i].key.value)
  {
    var name := rules.tokens[i].key.value;
    ghost var m := r + 1;
    assert Start(all, m) == Start(all, r) + 1 + |all[r].keys|;
    for j := i + 1 to rules.tokenCur
      invariant r < m <= |all| && (forall q :: r < q < m ==> !HasLabel(all[q], all[r].file, name))
      invariant Start(all, m - 1) < j && j <= Start(all, m)
    {
      ghost var q := TokenAt(rules.Contents(), all, i, j);
      Between(all, m, j, q);
      if Type(rules.tokens[j]) == TK_RULE {
        if rules.tokens[j].name != [] && name == rules.tokens[j].name {
          FirstLabelFacts(all, r + 1, all[r].file, name, m);
          return j;
        }
        m := m + 1;
      }
    }
    if m < |all| {
      StartGrows(all, m, |all|);
      assert false;
    }
    FirstLabelFacts(all, r + 1, all[r].file, name, m);
    return 0;
  }

  /** One position of the linking: a GOTO gets the index of its label's rule, if there is one. */
  method LinkAt(rules: Rules, i: nat, ghost all: seq<Rule>, ghost first: nat)
    requires rules.Valid() && WellFormed(all) && Laid(rules.Contents(), all, i) && i < rules.tokenCur
    requires first < |all| && Start(all, first) < i &&
             (forall q :: first <= q < |all| ==> all[q].file == all[first].file)
    modifies rules.tokens
    ensures rules.Valid() && Laid(rules.Contents(), all, i + 1)
  {
    ghost var before := rules.Contents();
    ghost var r := TokenAt(before, all, i, i);
    if r < first {
      StartGrows(all, r, first);
      assert false;
    }
    ghost var token := before[i];
    if Type(rules.tokens[i]) == TK_A_GOTO {
      var goto := FindLabel(rules, i, r, all, first);
      token := KeyToken(before[i].key, goto);
      BoundMoves(before, all, i, token, r);
      if goto != 0 {
        rules.tokens[i] := KeyToken(rules.tokens[i].key, goto);
      }
    } else {
      BoundMoves(before, all, i, token, r);
    }
    assert rules.Contents() == before[i := token];
  }

  ghost predicate FromFile(lines: seq<Rule>, file: nat) {
    forall l :: 0 <= l < |lines| ==> lines[l].file == file
  }

  /** The lines of a file are read behind what is there. */
  method ReadLines(rules: Rules, lines: seq<Rule>, ghost all: seq<Rule>, ghost file: nat)
    requires rules.Valid() && WellFormed(all) && WellFormed(lines) && Laid(rules.Contents(), all, rules.tokenCur)
    requires FromFile(lines, file) && forall r :: 0 <= r < |all| ==> all[r].file != file
    modifies rules, rules.tokens
    ensures rules.Valid() && (rules.tokens == old(rules.tokens) || fresh(rules.tokens))
    ensures rules.tokenCur >= old(rules.tokenCur) == Start(all + lines, |all|)
    ensures Laid(rules.Contents(), all + lines, old(rules.tokenCur))
  {
    ghost var first := rules.tokenCur;
    assert all + lines[..0] == all;
    for l := 0 to |lines|
      invariant rules.Valid() && (rules.tokens == old(rules.tokens) || fresh(rules.tokens))
      invariant rules.tokenCur >= first == Start(all + lines[..l], |all|)
      invariant Laid(rules.Contents(), all + lines[..l], first)
    {
      ghost var sofar := all + lines[..l];
      assert all + lines[..l + 1] == sofar + [lines[l]];
      OnlyEarlier(sofar, |all|, lines[l].file, first);
      StartKept(sofar, lines[l], |all|);
      AddRule(rules, lines[l], sofar, first);
    }
    assert all + lines[..|lines|] == all + lines;
  }

  lemma OnlyEarlier(sofar: seq<Rule>, n: nat, file: nat, first: nat)
    requires n <= |sofar| && Start(sofar, n) == first
    requires forall r :: 0 <= r < n ==> sofar[r].file != file
    ensures OtherFiles(sofar, file, first)
  {
    forall r | 0 <= r < |sofar| && Start(sofar, r) < first
      ensures sofar[r].file != file
    {
      if n < r {
        StartGrows(sofar, n, r);
      }
    }
  }

  /** A TK_RULE is no GOTO: the bound moves over it. */
  lemma RuleTokenLinked(tokens: seq<Token>, rules: seq<Rule>, r: nat, bound: nat)
    requires Laid(tokens, rules, bound) && r < |rules| && bound == Start(rules, r)
    ensures bound < |tokens| && Laid(tokens, rules, bound + 1)
  {
    StartGrows(rules, r, |rules|);
    assert BlockAt(tokens, rules, r, bound);
    BoundMoves(tokens, rules, bound, tokens[bound], r);
    assert tokens[bound := tokens[bound]] == tokens;
  }

  /** parse_file(): read the rules, then link their GOTOs to labels of later rules of this file. */
  method ParseFile(rules: Rules, lines: seq<Rule>, ghost all: seq<Rule>, ghost file: nat)
    requires rules.Valid() && WellFormed(all) && WellFormed(lines) && Laid(rules.Contents(), all, rules.tokenCur)
    requires FromFile(lines, file) && forall r :: 0 <= r < |all| ==> all[r].file != file
    modifies rules, rules.tokens
    ensures rules.Valid() && (rules.tokens == old(rules.tokens) || fresh(rules.tokens))
    ensures Laid(rules.Contents(), all + lines, rules.tokenCur)
  {
    var firstToken := rules.tokenCur;
    ReadLines(rules, lines, all, file);
    ghost var whole := all + lines;
    var i := firstToken + 1;
    if lines == [] {
      assert whole == all;
    } else {
      RuleTokenLinked(rules.Contents(), whole, |all|, firstToken);
    }
    while i < rules.tokenCur
      invariant rules.Valid() && (rules.tokens == old(rules.tokens) || fresh(rules.tokens))
      invariant lines == [] ==> i == rules.tokenCur + 1 && Laid(rules.Contents(), whole, rules.tokenCur)
      invariant lines != [] ==> firstToken < i <= rules.tokenCur && Laid(rules.Contents(), whole, i)
      decreases rules.tokenCur - i
    {
      LinkAt(rules, i, whole, |all|);
      i := i + 1;
    }
  }

  function Flatten(files: seq<seq<Rule>>): seq<Rule> {
    if files == [] then [] else Flatten(files[..|files| - 1]) + files[|files| - 1]
  }

  /** Rules carry the number of their file. */
  ghost predicate Numbered(files: seq<seq<Rule>>) {
    forall f :: 0 <= f < |files| ==> WellFormed(files[f]) && FromFile(files[f], f)
  }

  lemma {:induction false} FlattenFacts(files: seq<seq<Rule>>)
    requires Numbered(files)
    ensures WellFormed(Flatten(files))
    ensures forall r :: 0 <= r < |Flatten(files)| ==> Flatten(files)[r].file < |files|
    decreases |files|
  {
    if files != [] {
      FlattenFacts(files[..|files| - 1]);
    }
  }

  /** rules_load(): file by file, then TK_END. */
  method RulesLoad(files: seq<seq<Rule>>) returns (rules: Rules)
    requires Numbered(files)
    ensures fresh(rules) && rules.Valid()
    ensures |rules.Contents()| > 0 && rules.Contents()[|rules.Contents()| - 1] == EndToken
    ensures var n := |rules.Contents()| - 1; Laid(rules.Contents()[..n], Flatten(files), n)
  {
    rules := new Rules(PREALLOC_TOKEN);
    assert files[..0] == [];
    for f := 0 to |files|
      invariant fresh(rules) && fresh(rules.tokens) && rules.Valid()
      invariant Laid(rules.Contents(), Flatten(files[..f]), rules.tokenCur)
    {
      FlattenFacts(files[..f]);
      assert files[..f + 1][..f] == files[..f];
      ParseFile(rules, files[f], Flatten(files[..f]), f);
    }
    assert files[..|files|] == files;
    ghost var before := rules.Contents();
    rules.AddToken(EndToken);
    assert rules.Contents()[..|before|] == before;
  }
}
