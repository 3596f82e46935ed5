/**
  The in-memory match trie that `udevadm hwdb --update` builds
  (src/udevadm/udevadm-hwdb.c): nodes with a prefix, sorted children and sorted
  values, all strings in one string store.
  */
module HwdbTrie {
  import opened CStrings
  import opened ChildArrays
  import Strbufs
  import Radix

  type Shape = Radix.Shape

  datatype ValueEntry = ValueEntry(keyOff: nat, valueOff: nat)
  datatype TrieNode = TrieNode(prefixOff: nat, children: seq<ChildEntry>, values: seq<ValueEntry>)

  ghost predicate ValuesHeld(values: seq<ValueEntry>, pairs: seq<(CStr, CStr)>, buf: seq<Byte>) {
    && |values| == |pairs|
    && forall i :: 0 <= i < |values| ==>
                     HoldsAt(buf, values[i].keyOff, pairs[i].0) && HoldsAt(buf, values[i].valueOff, pairs[i].1)
  }

  /** The record n is the node at path a: its offsets lead to the strings of the node's image. */
  ghost predicate LinkedAt(a: CStr, n: TrieNode, at: map<CStr, Ptr>, shape: Shape, buf: seq<Byte>)
    requires a in shape
  {
    && HoldsAt(buf, n.prefixOff, shape[a].prefix)
    && Labels(n.children) == shape[a].labels
    && ValuesHeld(n.values, shape[a].pairs, buf)
    && (forall e :: e in n.children ==>
                      Snoc(Radix.Full(a, shape), e.c) in at && e.child == at[Snoc(Radix.Full(a, shape), e.c)])
  }

  /** The node at path a has a record in the pool; paths tells whose it is. */
  ghost predicate Placed(a: CStr, pool: seq<TrieNode>, at: map<CStr, Ptr>, paths: seq<CStr>, shape: Shape,
                         buf: seq<Byte>)
    requires a in at && a in shape && |pool| == |paths|
  {
    at[a] < |pool| && paths[at[a]] == a && LinkedAt(a, pool[at[a]], at, shape, buf)
  }

  /** The pool holds the nodes of the shape and no others. */
  ghost predicate Linked(pool: seq<TrieNode>, at: map<CStr, Ptr>, paths: seq<CStr>, shape: Shape, buf: seq<Byte>) {
    && at.Keys == shape.Keys
    && |at| == |pool| == |paths|
    && forall a {:trigger Placed(a, pool, at, paths, shape, buf)} ::
         a in at ==> Placed(a, pool, at, paths, shape, buf)
  }

  ghost predicate Grown(buf: seq<Byte>, buf': seq<Byte>) {
    |buf| <= |buf'| && buf'[..|buf|] == buf
  }

  lemma HeldGrown(buf: seq<Byte>, buf': seq<Byte>, off: int, s: CStr)
    requires Grown(buf, buf') && HoldsAt(buf, off, s)
    ensures HoldsAt(buf', off, s)
  {
    HoldsGrown(buf, off, s, buf'[|buf|..]);
    assert buf' == buf + buf'[|buf|..];
  }

  lemma ValuesGrown(buf: seq<Byte>, buf': seq<Byte>, values: seq<ValueEntry>, pairs: seq<(CStr, CStr)>)
    requires Grown(buf, buf') && ValuesHeld(values, pairs, buf)
    ensures ValuesHeld(values, pairs, buf')
  {
    forall i | 0 <= i < |values|
      ensures HoldsAt(buf', values[i].keyOff, pairs[i].0) && HoldsAt(buf', values[i].valueOff, pairs[i].1)
    {
      HeldGrown(buf, buf', values[i].keyOff, pairs[i].0);
      HeldGrown(buf, buf', values[i].valueOff, pairs[i].1);
    }
  }

  lemma LinkedGrown(pool: seq<TrieNode>, at: map<CStr, Ptr>, paths: seq<CStr>, shape: Shape, buf: seq<Byte>,
                    buf': seq<Byte>)
    requires Linked(pool, at, paths, shape, buf) && Grown(buf, buf')
    ensures Linked(pool, at, paths, shape, buf')
  {
    forall a | a in at
      ensures Placed(a, pool, at, paths, shape, buf')
    {
      assert Placed(a, pool, at, paths, shape, buf);
      HeldGrown(buf, buf', pool[at[a]].prefixOff, shape[a].prefix);
      ValuesGrown(buf, buf', pool[at[a]].values, shape[a].pairs);
    }
  }

  lemma SplitLinkedAt(pool: seq<TrieNode>, at: map<CStr, Ptr>, paths: seq<CStr>, shape: Shape, buf: seq<Byte>,
                      a: CStr, p: nat, off: nat, k: CStr)
    requires Linked(pool, at, paths, shape, buf) && Radix.Valid(shape)
    requires a in shape && p < |shape[a].prefix| && HoldsAt(buf, off, shape[a].prefix[..p])
    requires k in Radix.Split(a, shape, p)
    requires Placed(a, pool, at, paths, shape, buf) && (k in at ==> Placed(k, pool, at, paths, shape, buf))
    ensures var n := pool[at[a]];
            var n' := if k == a then TrieNode(off, [ChildEntry(shape[a].prefix[p], |pool|)], [])
                      else if k == Radix.SplitPath(a, shape, p) then
                        TrieNode(n.prefixOff + p + 1, n.children, n.values)
                      else pool[at[k]];
            LinkedAt(k, n', at[Radix.SplitPath(a, shape, p) := |pool|], Radix.Split(a, shape, p), buf)
  {
    Radix.SplitFacts(a, shape, p);
    if k == a {
      assert Labels([ChildEntry(shape[a].prefix[p], |pool|)]) == [shape[a].prefix[p]];
    } else if k == Radix.SplitPath(a, shape, p) {
      assert Placed(a, pool, at, paths, shape, buf);
      HoldsTail(buf, pool[at[a]].prefixOff, shape[a].prefix, p + 1);
    } else {
      assert Placed(k, pool, at, paths, shape, buf);
    }
  }

  /** The record of a split node, and of the child that takes over what it held. */
  lemma SplitLinked(pool: seq<TrieNode>, at: map<CStr, Ptr>, paths: seq<CStr>, shape: Shape, buf: seq<Byte>,
                    a: CStr, p: nat, off: nat, node: Ptr, c: Char, newChild: TrieNode, m: CStr)
    requires Linked(pool, at, paths, shape, buf) && Radix.Valid(shape)
    requires a in shape && p < |shape[a].prefix| && HoldsAt(buf, off, shape[a].prefix[..p])
    requires Placed(a, pool, at, paths, shape, buf)
    requires node == at[a] && c == shape[a].prefix[p] && m == Radix.SplitPath(a, shape, p)
    requires newChild == TrieNode(pool[node].prefixOff + p + 1, pool[node].children, pool[node].values)
    ensures Linked(pool[node := TrieNode(off, [ChildEntry(c, |pool|)], [])] + [newChild], at[m := |pool|], paths + [m],
                   Radix.Split(a, shape, p), buf)
    ensures m !in at && a != [] && m != [] && Radix.Valid(Radix.Split(a, shape, p))
  {
    var pool' := pool[node := TrieNode(off, [ChildEntry(c, |pool|)], [])] + [newChild];
    var at', shape' := at[m := |pool|], Radix.Split(a, shape, p);
    Radix.SplitFacts(a, shape, p);
    Radix.SplitValid(a, shape, p);
    forall k | k in at'
      ensures Placed(k, pool', at', paths + [m], shape', buf)
    {
      assert k in at ==> Placed(k, pool, at, paths, shape, buf);
      SplitLinkedAt(pool, at, paths, shape, buf, a, p, off, k);
    }
  }

  lemma NoLabels()
    ensures Labels([]) == []
  {
  }

  /** A record emptied, and given one child. */
  lemma OneChild(before: seq<TrieNode>, blank: seq<TrieNode>, pool: seq<TrieNode>, node: Ptr, off: nat, c: Char,
                 child: TrieNode)
    requires node < |before| && blank == before[node := TrieNode(off, [], [])] + [child] && |pool| == |blank|
    requires pool == blank[node := blank[node].(children := pool[node].children)]
    requires |pool[node].children| == 1
    requires forall e :: e in pool[node].children <==> e in blank[node].children || e == ChildEntry(c, |before|)
    ensures pool == before[node := TrieNode(off, [ChildEntry(c, |before|)], [])] + [child]
  {
    assert pool[node].children[0] in pool[node].children;
    assert pool[node].children == [ChildEntry(c, |before|)];
  }

  lemma ChildLinked(pool: seq<TrieNode>, at: map<CStr, Ptr>, paths: seq<CStr>, shape: Shape, buf: seq<Byte>,
                    a: CStr, c: Char, children: seq<ChildEntry>, rest: CStr, off: nat)
    requires Linked(pool, at, paths, shape, buf) && Radix.ChildFits(a, shape, c, Labels(children))
    requires Placed(a, pool, at, paths, shape, buf)
    requires forall e :: e in children ==> e in pool[at[a]].children || e == ChildEntry(c, |pool|)
    requires HoldsAt(buf, off, rest)
    ensures Linked(pool[at[a] := pool[at[a]].(children := children)] + [TrieNode(off, [], [])],
                   at[Snoc(Radix.Full(a, shape), c) := |pool|], paths + [Snoc(Radix.Full(a, shape), c)],
                   Radix.AddChild(a, shape, c, Labels(children), rest), buf)
  {
    var m := Snoc(Radix.Full(a, shape), c);
    var pool' := pool[at[a] := pool[at[a]].(children := children)] + [TrieNode(off, [], [])];
    var at', shape' := at[m := |pool|], Radix.AddChild(a, shape, c, Labels(children), rest);
    Radix.ChildFacts(a, shape, c, Labels(children), rest);
    forall k | k in at'
      ensures Placed(k, pool', at', paths + [m], shape', buf)
    {
      if k == m {
        assert Labels([]) == [];
      } else if k != a {
        assert Placed(k, pool, at, paths, shape, buf);
      }
    }
  }

  lemma SetPairsLinked(pool: seq<TrieNode>, at: map<CStr, Ptr>, paths: seq<CStr>, shape: Shape, buf: seq<Byte>,
                       a: CStr, values: seq<ValueEntry>, pairs: seq<(CStr, CStr)>)
    requires Linked(pool, at, paths, shape, buf) && a in shape && Placed(a, pool, at, paths, shape, buf)
    requires ValuesHeld(values, pairs, buf)
    ensures Linked(pool[at[a] := pool[at[a]].(values := values)], at, paths, shape[a := shape[a].(pairs := pairs)], buf)
  {
    var pool', shape' := pool[at[a] := pool[at[a]].(values := values)], shape[a := shape[a].(pairs := pairs)];
    forall k | k in at
      ensures Placed(k, pool', at, paths, shape', buf)
    {
      assert Placed(k, pool, at, paths, shape, buf);
    }
  }

  /** Replacing a value, or entering a new one at its place, is what Upsert says. */
  lemma {:induction false} UpsertAt(pairs: seq<(CStr, CStr)>, key: CStr, value: CStr, i: nat, found: bool)
    requires Radix.KeysSorted(pairs)
    requires i <= |pairs|
    requires forall j :: 0 <= j < i ==> Less(pairs[j].0, key)
    requires found ==> i < |pairs| && pairs[i].0 == key
    requires !found ==> forall j :: i <= j < |pairs| ==> Less(key, pairs[j].0)
    ensures Radix.Upsert(pairs, key, value) ==
            if found then pairs[i := (key, value)] else pairs[..i] + [(key, value)] + pairs[i..]
    decreases i
  {
    LessIrreflexive(key);
    if i == 0 {
      if !found && pairs != [] {
        assert Less(key, pairs[0].0);
      }
    } else {
      assert Less(pairs[0].0, key);
      if Less(key, pairs[0].0) {
        LessTransitive(key, pairs[0].0, key);
      }
      UpsertAt(pairs[1..], key, value, i - 1, found);
      if found {
        assert pairs[1..][i - 1 := (key, value)] == pairs[i := (key, value)][1..];
      } else {
        assert pairs[1..][..i - 1] == pairs[..i][1..] && pairs[1..][i - 1..] == pairs[i..];
      }
    }
  }

  /** The array with the value replaced or the pair entered holds the updated pairs. */
  lemma ValuesUpsert(values: seq<ValueEntry>, pairs: seq<(CStr, CStr)>, buf: seq<Byte>,
                     key: CStr, value: CStr, k: nat, v: nat, i: nat, found: bool)
    requires ValuesHeld(values, pairs, buf) && Radix.KeysSorted(pairs)
    requires HoldsAt(buf, k, key) && HoldsAt(buf, v, value)
    requires i <= |pairs|
    requires forall j :: 0 <= j < i ==> Less(pairs[j].0, key)
    requires found ==> i < |pairs| && pairs[i].0 == key
    requires !found ==> forall j :: i <= j < |pairs| ==> Less(key, pairs[j].0)
    ensures ValuesHeld(if found then values[i := values[i].(valueOff := v)]
                       else values[..i] + [ValueEntry(k, v)] + values[i..],
                       Radix.Upsert(pairs, key, value), buf)
  {
    UpsertAt(pairs, key, value, i, found);
    var values' := if found then values[i := values[i].(valueOff := v)]
                   else values[..i] + [ValueEntry(k, v)] + values[i..];
    var pairs' := if found then pairs[i := (key, value)] else pairs[..i] + [(key, value)] + pairs[i..];
    forall j | 0 <= j < |values'|
      ensures HoldsAt(buf, values'[j].keyOff, pairs'[j].0) && HoldsAt(buf, values'[j].valueOff, pairs'[j].1)
    {
      if !found && j > i {
        assert values'[j] == values[j - 1] && pairs'[j] == pairs[j - 1];
      }
    }
  }

  /** The trie seen from outside: the place of every node, and what the nodes hold. */
  datatype Index = Index(at: map<CStr, Ptr>, paths: seq<CStr>, shape: Shape)

  /** Where the first j characters of the search string end a node's prefix, the rest can be entered. */
  ghost predicate Arrived(search: CStr, j: nat, a: CStr, shape: Shape, nodes: nat, spare: set<CStr>) {
    && a in shape && j <= |search| && Head(search, j) == Radix.Full(a, shape)
    && (j < |search| ==> search[j] !in shape[a].labels && Radix.RoomBelow(a, shape, search, nodes, spare))
    && (j == |search| ==> search == Radix.Full(a, shape) && Radix.RoomAt(a, shape, nodes, spare))
  }

  /** The node is split so that the search string ends there, or can branch off. */
  lemma SplitReady(search: CStr, i: nat, p: nat, j: nat, index: Index, a: CStr, nodes: nat, spare: set<CStr>,
                   shape1: Shape, nodes1: nat, spare1: set<CStr>)
    requires Radix.Valid(index.shape) && Radix.Small(index.shape, nodes, spare)
    requires index.at.Keys == index.shape.Keys && nodes == |index.at| && a in index.shape
    requires i == |a| && IsPrefix(a, search) && i + p <= |search|
    requires p < |index.shape[a].prefix| && search[i..i + p] == index.shape[a].prefix[..p]
    requires index.shape[a].prefix[p] != At(search, i + p)
    requires j == i + p && nodes1 == nodes + 1 && shape1 == Radix.Split(a, index.shape, p)
    requires spare1 == Radix.SpareAfter(spare, a, Radix.SplitPath(a, index.shape, p))
    ensures Radix.SameMaps(index.shape, shape1) && Arrived(search, j, a, shape1, nodes1, spare1)
  {
    Radix.SplitFacts(a, index.shape, p);
    Radix.SplitMaps(a, index.shape, p);
    Radix.NoNodeInside(a, search, p, index.shape);
    assert {a, []} <= index.at.Keys && a != [];
    AtLeastTwo(index.at, a);
    Radix.SplitHasRoom(a, index.shape, p, search, nodes, spare);
    assert search[..i] == a && search[..i + p] == search[..i] + search[i..i + p];
  }

  lemma AtLeastTwo(at: map<CStr, Ptr>, a: CStr)
    requires a in at && [] in at && a != []
    ensures |at| >= 2
  {
    assert {a, []} <= at.Keys;
    SubsetCard({a, []}, at.Keys);
  }

  lemma {:induction false} SubsetCard(s: set<CStr>, t: set<CStr>)
    requires s <= t
    ensures |s| <= |t|
    decreases |s|
  {
    if x :| x in s {
      SubsetCard(s - {x}, t - {x});
    }
  }

  /**
    Where char is signed a byte above 127 never is taken for the same in a prefix: the node
    is split although the search string goes on like it, and the walk goes on in the child.
    */
  lemma SplitOnTheWay(search: CStr, i: nat, p: nat, index: Index, a: CStr, nodes: nat, spare: set<CStr>, m: CStr,
                      shape1: Shape, spare1: set<CStr>)
    requires Radix.Valid(index.shape) && Radix.Small(index.shape, nodes, spare)
    requires index.at.Keys == index.shape.Keys && nodes == |index.at| && a in index.shape
    requires i == |a| && IsPrefix(a, search) && i + p < |search|
    requires p < |index.shape[a].prefix| && search[i..i + p] == index.shape[a].prefix[..p]
    requires index.shape[a].prefix[p] == search[i + p]
    requires m == Radix.SplitPath(a, index.shape, p) && shape1 == Radix.Split(a, index.shape, p)
    requires spare1 == Radix.SpareAfter(spare, a, m) + {a}
    ensures Radix.SameMaps(index.shape, shape1) && Radix.Small(shape1, nodes + 1, spare1) && |spare1| == |spare| + 1
    ensures |m| == i + p + 1 && IsPrefix(m, search)
    ensures a in shape1 && shape1[a].labels == [search[i + p]] && m == Snoc(Radix.Full(a, shape1), search[i + p])
  {
    Radix.SplitFacts(a, index.shape, p);
    assert {a, []} <= index.at.Keys && a != [];
    AtLeastTwo(index.at, a);
    Radix.SplitSpares(a, index.shape, p, nodes, spare, spare1);
    assert search[..i + p + 1] == search[..i] + search[i..i + p] + [search[i + p]];
    assert index.shape[a].prefix[..p + 1] == index.shape[a].prefix[..p] + [index.shape[a].prefix[p]];
  }

  class Trie {
    // the root is the first node of the pool
    var pool: seq<TrieNode>
    const strings: Strbufs.Strbuf
    var nodesCount: nat
    var childrenCount: nat
    var valuesCount: nat
    ghost var index: Index
    // whether plain char is signed; the nodes split for that alone
    const signed: bool
    ghost var spare: set<CStr>

    /** Nodes and strings fit together; holds between the steps of an insertion too. */
    ghost predicate Sound()
      reads this, strings
    {
      && strings.Valid() && strings.Counted() && !strings.complete
      && Linked(pool, index.at, index.paths, index.shape, strings.buf)
      && Radix.Valid(index.shape)
      && index.at[[]] == 0
      && nodesCount == |pool|
      && nodesCount == childrenCount + 1
    }

    ghost predicate Valid()
      reads this, strings
    {
      Sound() && Radix.Small(index.shape, nodesCount, spare)
    }

    constructor (signed: bool)
      ensures Valid() && fresh(strings) && this.signed == signed && spare == {}
      ensures |strings.buf| == 1
      ensures forall p, k, v :: !Radix.Maps(index.shape, p, k, v)
    {
      pool := [TrieNode(0, [], [])];
      strings := new Strbufs.Strbuf();
      nodesCount, childrenCount, valuesCount := 1, 0, 0;
      index := Index(map[[] := 0], [[]], map[[] := Radix.Image([], [], [])]);
      this.signed := signed;
      spare := {};
      new;
      assert index.at.Keys == {[]};
      assert Radix.NodeOk([], index.shape);
      assert Placed([], pool, index.at, index.paths, index.shape, strings.buf);
    }

    /** strbuf_add_string() on the trie's strings: what is held stays held. */
    method AddString(s: CStr) returns (off: nat)
      requires Sound()
      modifies strings
      ensures Sound() && Grown(old(strings.buf), strings.buf)
      ensures HoldsAt(strings.buf, off, s)
      ensures |strings.buf| <= |old(strings.buf)| + |s| + 1
    {
      ghost var buf := strings.buf;
      off := strings.AddString(s);
      assert Grown(buf, strings.buf);
      LinkedGrown(pool, index.at, index.paths, index.shape, buf, strings.buf);
    }

    /** The mismatch test of trie_insert(): how much of the node's prefix the search string repeats. */
    method MatchPrefix(node: Ptr, search: CStr, i: nat, ghost prefix: CStr) returns (p: nat, c: Byte)
      requires node < |pool| && i <= |search| && HoldsAt(strings.buf, pool[node].prefixOff, prefix)
      ensures p <= |prefix| && i + p <= |search| && search[i..i + p] == prefix[..p]
      ensures c == At(prefix, p)
      ensures c != NUL ==> !SameChar(c, At(search, i + p), signed)
    {
      HoldsBytes(strings.buf, pool[node].prefixOff, prefix);
      p := 0;
      c := strings.buf[pool[node].prefixOff];
      while c != NUL && SameChar(c, At(search, i + p), signed)
        invariant p <= |prefix| && i + p <= |search| && search[i..i + p] == prefix[..p]
        invariant c == At(prefix, p)
        decreases |prefix| - p
      {
        p := p + 1;
        c := strings.buf[pool[node].prefixOff + p];
      }
    }

    /** node_add_child(). */
    method AddChildEntry(node: Ptr, c: Char, child: Ptr)
      requires node < |pool|
      requires Sorted(Labels(pool[node].children)) && c !in Labels(pool[node].children)
      modifies this`pool, this`nodesCount, this`childrenCount
      ensures |pool| == |old(pool)| && pool == old(pool)[node := old(pool)[node].(children := pool[node].children)]
      ensures |pool[node].children| == |old(pool)[node].children| + 1
      ensures Sorted(Labels(pool[node].children))
      ensures forall d :: d in Labels(pool[node].children) <==> d in Labels(old(pool)[node].children) || d == c
      ensures forall e :: e in pool[node].children <==> e in old(pool)[node].children || e == ChildEntry(c, child)
      ensures nodesCount == old(nodesCount) + 1 && childrenCount == old(childrenCount) + 1
    {
      // qsort() of a sorted array and one more entry
      var children := InsertSorted(pool[node].children, c, child);
      childrenCount := childrenCount + 1;
      pool := pool[node := pool[node].(children := children)];
      nodesCount := nodesCount + 1;
    }

    /** The node gets a shorter prefix, and a new child for what it held. */
    method MoveDown(node: Ptr, off: nat, c: Char, newChild: TrieNode)
      requires node < |pool|
      modifies this`pool, this`nodesCount, this`childrenCount
      ensures pool == old(pool)[node := TrieNode(off, [ChildEntry(c, |old(pool)|)], [])] + [newChild]
      ensures nodesCount == old(nodesCount) + 1 && childrenCount == old(childrenCount) + 1
    {
      ghost var before := pool;
      NoLabels();
      pool := pool[node := TrieNode(off, [], [])] + [newChild];
      ghost var blank := pool;
      AddChildEntry(node, c, |pool| - 1);
      OneChild(before, blank, pool, node, off, c, newChild);
    }

    /** Split the node at position p of its prefix; a new child takes what it held. */
    method SplitNode(node: Ptr, p: nat, c: Char, ghost a: CStr)
      requires Sound() && a in index.at && node == index.at[a]
      requires p < |index.shape[a].prefix| && c == index.shape[a].prefix[p]
      modifies this, strings
      ensures Sound() && nodesCount == old(nodesCount) + 1 && spare == old(spare)
      ensures |strings.buf| <= |old(strings.buf)| + p + 1
      ensures index.shape == Radix.Split(a, old(index.shape), p)
      ensures index.at == old(index.at)[Radix.SplitPath(a, old(index.shape), p) := |old(pool)|]
    {
      ghost var Index(at, paths, shape) := index;
      ghost var prefix := shape[a].prefix;
      assert Placed(a, pool, at, paths, shape, strings.buf);
      var newChild := TrieNode(pool[node].prefixOff + p + 1, pool[node].children, pool[node].values);
      var s := StrAt(strings.buf, pool[node].prefixOff)[..p];
      var off := AddString(s);
      ghost var m := Radix.SplitPath(a, shape, p);
      SplitLinked(pool, at, paths, shape, strings.buf, a, p, off, node, c, newChild, m);
      index := Index(at[m := |pool|], paths + [m], Radix.Split(a, shape, p));
      MoveDown(node, off, c, newChild);
    }

    /** Below the node, a new child entered by c for the rest of the search string. */
    method NewChild(node: Ptr, c: Char, rest: CStr, ghost a: CStr) returns (child: Ptr)
      requires Sound() && a in index.at && node == index.at[a]
      requires c !in index.shape[a].labels
      modifies this, strings
      ensures Sound() && nodesCount == old(nodesCount) + 1 && spare == old(spare)
      ensures |strings.buf| <= |old(strings.buf)| + |rest| + 1
      ensures exists labels :: Radix.ChildFits(a, old(index.shape), c, labels) &&
                               index.shape == Radix.AddChild(a, old(index.shape), c, labels, rest)
      ensures Snoc(Radix.Full(a, old(index.shape)), c) in index.at
      ensures child == index.at[Snoc(Radix.Full(a, old(index.shape)), c)]
    {
      ghost var Index(at, paths, shape) := index;
      var off := AddString(rest);
      assert Placed(a, pool, at, paths, shape, strings.buf);
      assert Radix.NodeOk(a, shape);
      ghost var before := pool;
      child := |pool|;
      AddChildEntry(node, c, child);
      pool := pool + [TrieNode(off, [], [])];
      ghost var m, children := Snoc(Radix.Full(a, shape), c), pool[node].children;
      ChildLinked(before, at, paths, shape, strings.buf, a, c, children, rest, off);
      Radix.ChildValid(a, shape, c, Labels(children), rest);
      index := Index(at[m := child], paths + [m], Radix.AddChild(a, shape, c, Labels(children), rest));
    }

    /** xbsearch_r() over a node's values; i is where the key is, or belongs. */
    method FindValue(node: Ptr, key: CStr, ghost pairs: seq<(CStr, CStr)>) returns (found: bool, i: nat)
      requires node < |pool| && ValuesHeld(pool[node].values, pairs, strings.buf) && Radix.KeysSorted(pairs)
      ensures i <= |pairs|
      ensures forall j :: 0 <= j < i ==> Less(pairs[j].0, key)
      ensures found ==> i < |pairs| && pairs[i].0 == key
      ensures !found ==> forall j :: i <= j < |pairs| ==> Less(key, pairs[j].0)
    {
      var values := pool[node].values;
      var first, last := 0, |values|;
      while first < last
        invariant 0 <= first <= last <= |values|
        invariant forall j :: 0 <= j < first ==> Less(pairs[j].0, key)
        invariant forall j :: last <= j < |values| ==> Less(key, pairs[j].0)
      {
        var middle := (first + last) / 2;
        var k := StrAt(strings.buf, values[middle].keyOff);
        assert k == pairs[middle].0;
        LessTotal(key, k);
        if Less(key, k) {
          forall j | middle < j < |values|
            ensures Less(key, pairs[j].0)
          {
            LessTransitive(key, k, pairs[j].0);
          }
          last := middle;
        } else {
          forall j | 0 <= j < middle
            ensures Less(pairs[j].0, k)
          {
          }
          if k == key {
            return true, middle;
          }
          forall j | 0 <= j < middle
            ensures Less(pairs[j].0, key)
          {
            LessTransitive(pairs[j].0, k, key);
          }
          first := middle + 1;
        }
      }
      return false, first;
    }

    /** Replace the value of the key, or enter the pair into the sorted array. */
    method SetEntry(node: Ptr, key: CStr, value: CStr, k: nat, v: nat, ghost pairs: seq<(CStr, CStr)>)
      returns (values: seq<ValueEntry>)
      requires node < |pool| && ValuesHeld(pool[node].values, pairs, strings.buf) && Radix.KeysSorted(pairs)
      requires HoldsAt(strings.buf, k, key) && HoldsAt(strings.buf, v, value)
      modifies this`valuesCount
      ensures ValuesHeld(values, Radix.Upsert(pairs, key, value), strings.buf)
    {
      values := pool[node].values;
      var found, i := FindValue(node, key, pairs);
      ValuesUpsert(values, pairs, strings.buf, key, value, k, v, i, found);
      if found {
        values := values[i := values[i].(valueOff := v)];
      } else {
        // qsort_r() of a sorted array and one more entry
        valuesCount := valuesCount + 1;
        values := values[..i] + [ValueEntry(k, v)] + values[i..];
      }
    }

    /** The node with the value set. */
    method SetValue(node: Ptr, key: CStr, value: CStr, k: nat, v: nat, ghost a: CStr)
      requires Sound() && a in index.at && node == index.at[a]
      requires HoldsAt(strings.buf, k, key) && HoldsAt(strings.buf, v, value)
      modifies this`pool, this`valuesCount, this`index
      ensures Sound()
      ensures index.shape ==
              old(index.shape)[a := old(index.shape)[a].(pairs := Radix.Upsert(old(index.shape)[a].pairs, key, value))]
    {
      ghost var Index(at, paths, shape) := index;
      assert Placed(a, pool, at, paths, shape, strings.buf);
      assert Radix.NodeOk(a, shape);
      ghost var pairs := shape[a].pairs;
      var values := SetEntry(node, key, value, k, v, pairs);
      SetPairsLinked(pool, at, paths, shape, strings.buf, a, values, Radix.Upsert(pairs, key, value));
      Radix.SetPairsValid(a, shape, key, value);
      pool := pool[node := pool[node].(values := values)];
      index := Index(at, paths, shape[a := shape[a].(pairs := Radix.Upsert(pairs, key, value))]);
    }

    /** trie_node_add_value(). */
    method AddValue(node: Ptr, key: CStr, value: CStr, ghost a: CStr)
      requires Sound() && a in index.at && node == index.at[a]
      modifies this, strings
      ensures Sound() && nodesCount == old(nodesCount) && spare == old(spare)
      ensures |strings.buf| <= |old(strings.buf)| + |key| + |value| + 2
      ensures index.shape ==
              old(index.shape)[a := old(index.shape)[a].(pairs := Radix.Upsert(old(index.shape)[a].pairs, key, value))]
    {
      var k := AddString(key);
      ghost var buf := strings.buf;
      var v := AddString(value);
      HeldGrown(buf, strings.buf, k, key);
      SetValue(node, key, value, k, v, a);
    }

    /** The walk ended at a node whose children do not continue the search string. */
    method InsertBelow(node: Ptr, search: CStr, i: nat, key: CStr, value: CStr, ghost a: CStr)
      requires Sound() && a in index.at && node == index.at[a]
      requires i < |search| && Head(search, i) == Radix.Full(a, index.shape)
      requires search[i] !in index.shape[a].labels
      requires Radix.RoomBelow(a, index.shape, search, nodesCount, spare)
      modifies this, strings
      ensures Valid() && spare == old(spare)
      ensures Radix.Updated(old(index.shape), index.shape, search, key, value)
      ensures |strings.buf| <= |old(strings.buf)| + |search| - i + |key| + |value| + 2
    {
      ghost var shape, m := index.shape, Snoc(Radix.Full(a, index.shape), search[i]);
      assert search == m + search[i + 1..];
      var child := NewChild(node, search[i], search[i + 1..], a);
      ghost var labels :| Radix.ChildFits(a, shape, search[i], labels) &&
                          index.shape == Radix.AddChild(a, shape, search[i], labels, search[i + 1..]);
      Radix.ChildUpdated(a, shape, search[i], labels, search[i + 1..], key, value, old(nodesCount), spare);
      AddValue(child, key, value, m);
    }

    /** The walk ended at the pattern's own node. */
    method InsertHere(node: Ptr, search: CStr, key: CStr, value: CStr, ghost a: CStr)
      requires Sound() && a in index.at && node == index.at[a]
      requires search == Radix.Full(a, index.shape)
      requires Radix.RoomAt(a, index.shape, nodesCount, spare)
      modifies this, strings
      ensures Valid() && spare == old(spare)
      ensures Radix.Updated(old(index.shape), index.shape, search, key, value)
      ensures |strings.buf| <= |old(strings.buf)| + |key| + |value| + 2
    {
      Radix.PairsUpdated(a, index.shape, key, value, nodesCount, spare);
      AddValue(node, key, value, a);
    }

    /** Past the first i characters of the search string, where the node may have just been split. */
    method InsertAt(node: Ptr, search: CStr, i: nat, key: CStr, value: CStr, ghost a: CStr, ghost shape: Shape,
                    ghost nodes: nat)
      requires Sound() && a in index.at && node == index.at[a]
      requires shape == index.shape && nodes == nodesCount && Arrived(search, i, a, shape, nodes, spare)
      modifies this, strings
      ensures Valid() && spare == old(spare)
      ensures Radix.Updated(shape, index.shape, search, key, value)
      ensures |strings.buf| <= |old(strings.buf)| + |search| - i + |key| + |value| + 2
    {
      if At(search, i) == NUL {
        InsertHere(node, search, key, value, a);
      } else {
        InsertBelow(node, search, i, key, value, a);
      }
    }

    /** A split where the search string differs or ends: there is room for it afterwards. */
    method SplitFor(node: Ptr, search: CStr, i: nat, p: nat, c: Char, ghost a: CStr)
      requires Valid() && a in index.at && node == index.at[a]
      requires i == |a| && IsPrefix(a, search) && i + p <= |search|
      requires p < |index.shape[a].prefix| && search[i..i + p] == index.shape[a].prefix[..p]
      requires index.shape[a].prefix[p] == c != At(search, i + p)
      modifies this, strings
      ensures Sound() && (old(spare) == {} ==> spare == {})
      ensures a in index.at && node == index.at[a] && Radix.SameMaps(old(index.shape), index.shape)
      ensures Arrived(search, i + p, a, index.shape, nodesCount, spare)
      ensures |strings.buf| <= |old(strings.buf)| + p + 1
    {
      ghost var shape, shape1, nodes := index.shape, Radix.Split(a, index.shape, p), nodesCount + 1;
      ghost var spare1 := Radix.SpareAfter(spare, a, Radix.SplitPath(a, shape, p));
      SplitReady(search, i, p, i + p, index, a, nodesCount, spare, shape1, nodes, spare1);
      SplitNode(node, p, c, a);
      spare := spare1;
    }

    /** The walk ended inside the node's prefix: at position p the search string differs, or ends. */
    method InsertBySplit(node: Ptr, search: CStr, i: nat, p: nat, c: Char, key: CStr, value: CStr, ghost a: CStr)
      requires Valid() && a in index.at && node == index.at[a]
      requires i == |a| && IsPrefix(a, search) && i + p <= |search|
      requires p < |index.shape[a].prefix| && search[i..i + p] == index.shape[a].prefix[..p]
      requires index.shape[a].prefix[p] == c != At(search, i + p)
      modifies this, strings
      ensures Valid() && (old(spare) == {} ==> spare == {})
      ensures Radix.Updated(old(index.shape), index.shape, search, key, value)
      ensures |strings.buf| <= |old(strings.buf)| + |search| - i + |key| + |value| + 3
    {
      SplitFor(node, search, i, p, c, a);
      ghost var shape1 := index.shape;
      InsertAt(node, search, i + p, key, value, a, shape1, nodesCount);
      Radix.UpdatedTrans(old(index.shape), shape1, index.shape, search, key, value);
    }

    /** Where the walk ended, the pattern's value is set, or its node is made. */
    method InsertThere(node: Ptr, search: CStr, i: nat, p: nat, c: Byte, key: CStr, value: CStr, ghost a: CStr)
      requires Valid() && a in index.at && node == index.at[a]
      requires c != NUL ==>
                 && i == |a| && IsPrefix(a, search) && i + p <= |search|
                 && p < |index.shape[a].prefix| && search[i..i + p] == index.shape[a].prefix[..p]
                 && index.shape[a].prefix[p] == c != At(search, i + p)
      requires c == NUL ==>
                 && i <= |search| && Head(search, i) == Radix.Full(a, index.shape)
                 && (i < |search| ==> search[i] !in index.shape[a].labels && search !in Radix.Patterns(index.shape))
      modifies this, strings
      ensures Valid() && (old(spare) == {} ==> spare == {})
      ensures Radix.Updated(old(index.shape), index.shape, search, key, value)
      ensures |strings.buf| <= |old(strings.buf)| + |search| - i + |key| + |value| + 3
    {
      if c != NUL {
        InsertBySplit(node, search, i, p, c, key, value, a);
      } else {
        Radix.SmallHasRoom(a, index.shape, search, nodesCount, spare);
        InsertAt(node, search, i, key, value, a, index.shape, nodesCount);
      }
    }

    /** node_lookup() where there is one child. */
    method OnlyChild(node: Ptr, c: Char, ghost a: CStr) returns (child: Ptr)
      requires Sound() && a in index.at && node == index.at[a] && index.shape[a].labels == [c]
      ensures Snoc(Radix.Full(a, index.shape), c) in index.at
      ensures child == index.at[Snoc(Radix.Full(a, index.shape), c)]
    {
      assert Placed(a, pool, index.at, index.paths, index.shape, strings.buf);
      assert Radix.NodeOk(a, index.shape);
      var _, next := Bsearch(pool[node].children, c);
      child := next;
    }

    /** A split where the search string does not differ: one spare node more, and one child to go on to. */
    method SplitOn(node: Ptr, search: CStr, i: nat, p: nat, c: Char, ghost a: CStr) returns (ghost m: CStr)
      requires Valid() && a in index.at && node == index.at[a]
      requires i == |a| && IsPrefix(a, search) && i + p < |search|
      requires p < |index.shape[a].prefix| && search[i..i + p] == index.shape[a].prefix[..p]
      requires index.shape[a].prefix[p] == c == search[i + p]
      modifies this, strings
      ensures Valid() && |spare| == |old(spare)| + 1
      ensures a in index.at && node == index.at[a] && Radix.SameMaps(old(index.shape), index.shape)
      ensures index.shape[a].labels == [c] && m == Snoc(Radix.Full(a, index.shape), c)
      ensures |m| == i + p + 1 && IsPrefix(m, search)
      ensures |strings.buf| <= |old(strings.buf)| + p + 1
    {
      ghost var shape, shape1 := index.shape, Radix.Split(a, index.shape, p);
      m := Radix.SplitPath(a, shape, p);
      ghost var spare1 := Radix.SpareAfter(spare, a, m) + {a};
      SplitOnTheWay(search, i, p, index, a, nodesCount, spare, m, shape1, spare1);
      SplitNode(node, p, c, a);
      spare := spare1;
    }

    /** The walk met a byte above 127 that is the same, but as a char differs: a split, and on to the new child. */
    method SplitAndGoOn(node: Ptr, search: CStr, i: nat, p: nat, c: Char, ghost a: CStr)
      returns (child: Ptr, ghost m: CStr)
      requires Valid() && a in index.at && node == index.at[a]
      requires i == |a| && IsPrefix(a, search) && i + p < |search|
      requires p < |index.shape[a].prefix| && search[i..i + p] == index.shape[a].prefix[..p]
      requires index.shape[a].prefix[p] == c == search[i + p]
      modifies this, strings
      ensures Valid() && |spare| == |old(spare)| + 1
      ensures Radix.SameMaps(old(index.shape), index.shape)
      ensures m in index.at && child == index.at[m] && |m| == i + p + 1 && IsPrefix(m, search)
      ensures |strings.buf| <= |old(strings.buf)| + p + 1
    {
      m := SplitOn(node, search, i, p, c, a);
      child := OnlyChild(node, c, a);
    }

    /**
      The walk of trie_insert().  It ends inside a prefix, where c is the character that does
      not match; or past a whole prefix, at the end of the search string or for want of a child.
      */
    method Descend(search: CStr, start: Ptr, from: nat, ghost above: CStr)
      returns (node: Ptr, i: nat, p: nat, c: Byte, ghost a: CStr)
      requires Valid() && above in index.at && start == index.at[above] && from == |above| && IsPrefix(above, search)
      ensures a in index.at && node == index.at[a] && from <= i
      ensures c != NUL ==>
                && i == |a| && IsPrefix(a, search) && i + p <= |search|
                && p < |index.shape[a].prefix| && search[i..i + p] == index.shape[a].prefix[..p]
                && index.shape[a].prefix[p] == c && !SameChar(c, At(search, i + p), signed)
      ensures c == NUL ==>
                && i <= |search| && Head(search, i) == Radix.Full(a, index.shape)
                && (i < |search| ==> search[i] !in index.shape[a].labels && search !in Radix.Patterns(index.shape))
    {
      node, i, a := start, from, above;
      while true
        invariant a in index.at && node == index.at[a]
        invariant from <= i == |a| && IsPrefix(a, search)
        decreases |search| - i
      {
        ghost var f := Radix.Full(a, index.shape);
        assert Placed(a, pool, index.at, index.paths, index.shape, strings.buf);
        assert Radix.NodeOk(a, index.shape);
        p, c := MatchPrefix(node, search, i, index.shape[a].prefix);
        if c != NUL {
          return;
        }
        i := i + p;
        assert Head(search, i) == f;
        if At(search, i) == NUL {
          return;
        }
        var found, child := Bsearch(pool[node].children, search[i]);
        if !found {
          Radix.NoNodeLeft(a, search, index.shape);
          return;
        }
        a := Snoc(f, search[i]);
        node := child;
        i := i + 1;
      }
    }

    /**
      trie_insert(): the pattern's node is found, or made by splitting the node where the
      pattern leaves a prefix and by adding a child where it leaves the trie.  Nodes are
      spare only where char is signed and the patterns have bytes above 127.
      */
    method Insert(search: CStr, key: CStr, value: CStr)
      requires Valid()
      modifies this, strings
      ensures Valid() && (old(spare) == {} && (!signed || NoSign(search, 0, |search|)) ==> spare == {})
      ensures Radix.Updated(old(index.shape), index.shape, search, key, value)
      ensures |strings.buf| <= |old(strings.buf)| + |search| + |key| + |value| + 3
    {
      var node, i := 0, 0;
      ghost var a: CStr, shape := [], index.shape;
      while true
        invariant Valid() && a in index.at && node == index.at[a] && i == |a| && IsPrefix(a, search)
        invariant Radix.SameMaps(shape, index.shape)
        invariant old(spare) == {} && (!signed || NoSign(search, 0, |search|)) ==> spare == {}
        invariant |strings.buf| <= |old(strings.buf)| + i
        decreases |search| - i
      {
        var p, c;
        node, i, p, c, a := Descend(search, node, i, a);
        if c == NUL || c != At(search, i + p) {
          ghost var shape1 := index.shape;
          InsertThere(node, search, i, p, c, key, value, a);
          Radix.UpdatedTrans(shape, shape1, index.shape, search, key, value);
          return;
        }
        node, a := SplitAndGoOn(node, search, i, p, c, a);
        i := i + p + 1;
      }
    }
  }
}
