/**
  The trie in memory as a tree of strings: the pool of records that trie_insert()
  maintains spells out one ordered tree, which maps what the trie maps.
  */
module TrieTree {
  import opened CStrings
  import opened ChildArrays
  import opened HwdbTrie
  import opened PatternTree
  import Radix
  import HwdbStore

  ghost function Deeper(shape: Shape, a: CStr): set<CStr> {
    set b | b in shape && |b| > |a|
  }

  ghost function KidPath(shape: Shape, a: CStr, i: nat): (m: CStr)
    requires Radix.Valid(shape) && a in shape && i < |shape[a].labels|
    ensures m in shape && Deeper(shape, m) < Deeper(shape, a)
  {
    assert Radix.NodeOk(a, shape);
    var m := Snoc(Radix.Full(a, shape), shape[a].labels[i]);
    assert m in Deeper(shape, a) && m !in Deeper(shape, m);
    m
  }

  ghost function TreeOf(shape: Shape, a: CStr): Tree
    requires Radix.Valid(shape) && a in shape
    decreases Deeper(shape, a), |shape[a].labels| + 1
  {
    Tree(shape[a].prefix, KidsOf(shape, a, |shape[a].labels|), shape[a].pairs)
  }

  /** The first n children. */
  ghost function KidsOf(shape: Shape, a: CStr, n: nat): (kids: seq<Edge>)
    requires Radix.Valid(shape) && a in shape && n <= |shape[a].labels|
    ensures |kids| == n
    decreases Deeper(shape, a), n
  {
    if n == 0 then []
    else KidsOf(shape, a, n - 1) + [Edge(shape[a].labels[n - 1], TreeOf(shape, KidPath(shape, a, n - 1)))]
  }

  lemma {:induction false} KidOf(shape: Shape, a: CStr, n: nat, i: nat)
    requires Radix.Valid(shape) && a in shape && i < n <= |shape[a].labels|
    ensures KidsOf(shape, a, n)[i] == Edge(shape[a].labels[i], TreeOf(shape, KidPath(shape, a, i)))
    decreases n
  {
    if i < n - 1 {
      KidOf(shape, a, n - 1, i);
    }
  }

  lemma {:induction false} TreeOrdered(shape: Shape, a: CStr)
    requires Radix.Valid(shape) && a in shape
    ensures Ordered(TreeOf(shape, a))
    decreases Deeper(shape, a)
  {
    var t, n := TreeOf(shape, a), |shape[a].labels|;
    assert Radix.NodeOk(a, shape);
    forall i | 0 <= i < n
      ensures t.kids[i].c == shape[a].labels[i] && Ordered(t.kids[i].tree)
    {
      KidOf(shape, a, n, i);
      TreeOrdered(shape, KidPath(shape, a, i));
    }
  }

  /** Every node but the root has values or at least two children. */
  ghost predicate Compact(t: Tree) {
    forall i :: 0 <= i < |t.kids| ==>
      (t.kids[i].tree.pairs != [] || |t.kids[i].tree.kids| >= 2) && Compact(t.kids[i].tree)
  }

  lemma {:induction false} TreeCompact(shape: Shape, a: CStr)
    requires Radix.Valid(shape) && Radix.Compact(shape, {}) && a in shape
    ensures Compact(TreeOf(shape, a))
    decreases Deeper(shape, a)
  {
    var t, n := TreeOf(shape, a), |shape[a].labels|;
    forall i | 0 <= i < n
      ensures t.kids[i].tree.pairs != [] || |t.kids[i].tree.kids| >= 2
      ensures Compact(t.kids[i].tree)
    {
      KidOf(shape, a, n, i);
      assert Radix.Useful(KidPath(shape, a, i), shape, {});
      TreeCompact(shape, KidPath(shape, a, i));
    }
  }

  /** The records of the pool spell out the tree. */
  lemma {:induction false} PoolIsTree(pool: seq<TrieNode>, index: Index, buf: seq<Byte>, a: CStr)
    requires Linked(pool, index.at, index.paths, index.shape, buf)
    requires Radix.Valid(index.shape) && a in index.shape
    requires Placed(a, pool, index.at, index.paths, index.shape, buf)
    ensures HwdbStore.IsTree(pool, buf, index.at[a], TreeOf(index.shape, a))
    decreases Deeper(index.shape, a)
  {
    var t, node := TreeOf(index.shape, a), pool[index.at[a]];
    forall i | 0 <= i < |t.kids|
      ensures node.children[i].c == t.kids[i].c
      ensures HwdbStore.IsTree(pool, buf, node.children[i].child, t.kids[i].tree)
    {
      KidOf(index.shape, a, |t.kids|, i);
      assert Labels(node.children)[i] == node.children[i].c;
      assert node.children[i] in node.children;
      assert Placed(KidPath(index.shape, a, i), pool, index.at, index.paths, index.shape, buf);
      PoolIsTree(pool, index, buf, KidPath(index.shape, a, i));
    }
  }

  /** The tree maps nothing that the trie does not map... */
  lemma {:induction false} TreeMapsSound(shape: Shape, a: CStr, pattern: CStr, key: CStr, value: CStr)
    requires Radix.Valid(shape) && a in shape
    requires Maps(TreeOf(shape, a), Radix.Full(a, shape), pattern, key, value)
    ensures Radix.Maps(shape, pattern, key, value)
    decreases Deeper(shape, a)
  {
    var t := TreeOf(shape, a);
    if !(pattern == Radix.Full(a, shape) && (key, value) in t.pairs) {
      var i :| 0 <= i < |t.kids| &&
               Maps(t.kids[i].tree, Snoc(Radix.Full(a, shape), t.kids[i].c) + t.kids[i].tree.prefix, pattern, key,
                    value);
      KidOf(shape, a, |t.kids|, i);
      TreeMapsSound(shape, KidPath(shape, a, i), pattern, key, value);
    }
  }

  /** ...and misses nothing of it. */
  lemma {:induction false} TreeMapsComplete(shape: Shape, a: CStr, b: CStr, key: CStr, value: CStr)
    requires Radix.Valid(shape) && a in shape && b in shape
    requires IsPrefix(a, b) && (key, value) in shape[b].pairs
    ensures Maps(TreeOf(shape, a), Radix.Full(a, shape), Radix.Full(b, shape), key, value)
    decreases Deeper(shape, a)
  {
    if a != b {
      var f := Radix.Full(a, shape);
      assert Radix.Apart(a, b, shape);
      assert Radix.NodeOk(a, shape);
      HeadStep(b, |f|);
      var i :| 0 <= i < |shape[a].labels| && shape[a].labels[i] == b[|f|];
      KidOf(shape, a, |shape[a].labels|, i);
      HeadHead(b, |b|, |f| + 1);
      TreeMapsComplete(shape, KidPath(shape, a, i), b, key, value);
    }
  }

  /** The trie in memory is one ordered tree, and that tree maps exactly what the trie maps. */
  lemma TrieIsTree(pool: seq<TrieNode>, index: Index, buf: seq<Byte>)
    requires Linked(pool, index.at, index.paths, index.shape, buf) && Radix.Valid(index.shape)
    ensures var t := TreeOf(index.shape, []);
            && Ordered(t) && t.prefix == []
            && HwdbStore.IsTree(pool, buf, index.at[[]], t)
            && forall p, k, v :: Maps(t, t.prefix, p, k, v) <==> Radix.Maps(index.shape, p, k, v)
  {
    var shape, t := index.shape, TreeOf(index.shape, []);
    TreeOrdered(shape, []);
    assert Placed([], pool, index.at, index.paths, index.shape, buf);
    PoolIsTree(pool, index, buf, []);
    assert Radix.Full([], shape) == [];
    forall p, k, v
      ensures Maps(t, t.prefix, p, k, v) <==> Radix.Maps(shape, p, k, v)
    {
      if Maps(t, t.prefix, p, k, v) {
        TreeMapsSound(shape, [], p, k, v);
      }
      if Radix.Maps(shape, p, k, v) {
        var b :| b in shape && Radix.Full(b, shape) == p && (k, v) in shape[b].pairs;
        TreeMapsComplete(shape, [], b, k, v);
      }
    }
  }
}
