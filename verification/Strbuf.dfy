/**
  The de-duplicating string store of shared/strbuf.c: one growing buffer, and a
  trie over reversed strings that finds a string that is already the tail of a
  stored one.

  The trie lives on the heap.  A node is identified by its path: the characters
  read so far, that is, the tail of every string looked up through the node.
  What the invariant says about the nodes is stated on their images, so that it
  can be kept by lemmas that do not mention the heap.
  */
module Strbufs {
  import opened ChildArrays
  import opened CStrings

  const EINVAL: int := 22

  datatype StrbufNode = StrbufNode(valueOff: nat, valueLen: nat, children: seq<ChildEntry>)

  /** What a node holds: the string stored for it and where, and the labels of its children. */
  datatype Image = Image(valueOff: nat, value: CStr, labels: seq<Char>)

  type Images = map<CStr, Image>

  /** The node at path p: its value ends in p, and its labels lead to the nodes one character on. */
  ghost predicate NodeOk(p: CStr, n: Image, images: Images, buf: seq<Byte>, stored: map<CStr, CStr>) {
    && HoldsAt(buf, n.valueOff, n.value)
    && Sorted(n.labels)
    && (forall c: Char :: Cons(c, p) in images <==> c in n.labels)
    && (p == [] ==> n.value == [] && n.valueOff == 0)
    && (p != [] ==>
          && IsSuffix(p, n.value)
          && n.value in stored
          && stored[n.value] == p
          && p[1..] in images)
  }

  /**
    The trie indexes exactly the strings that were appended to the buffer;
    `stored` gives the path of each one's node.
    */
  ghost predicate Indexed(images: Images, buf: seq<Byte>, stored: map<CStr, CStr>) {
    && [] in images
    && (forall p {:trigger NodeOk(p, images[p], images, buf, stored)} ::
          p in images ==> NodeOk(p, images[p], images, buf, stored))
    && (forall v :: v in stored ==> stored[v] != [] && stored[v] in images && images[stored[v]].value == v)
  }

  /** s is the tail of a string that is in the buffer already. */
  ghost predicate Known(s: CStr, stored: set<CStr>) {
    exists v :: v in stored && IsSuffix(s, v)
  }

  /**
    What adding s to a buffer does: the offset is that of s followed by NUL, the buffer
    grows exactly when s is new, and only by s; the empty string alone is at offset 0.
    */
  ghost predicate Added(s: CStr, off: int, buf: seq<Byte>, stored: set<CStr>, buf': seq<Byte>, stored': set<CStr>) {
    && HoldsAt(buf', off, s)
    && (off == 0 <==> s == [])
    && if s == [] || Known(s, stored) then
         buf' == buf && stored' == stored
       else
         off == |buf| && buf' == buf + s + [NUL] && stored' == stored + {s}
  }

  /** The walk for s has passed n nodes; none holds a string that ends in s. */
  ghost predicate Missed(s: CStr, n: nat, images: Images) {
    && n <= |s|
    && forall d :: 0 <= d < n ==> Tail(s, d) in images && !IsSuffix(s, images[Tail(s, d)].value)
  }

  /** The walk for s stopped at depth, below which there is no node. */
  ghost predicate Stopped(s: CStr, depth: nat, images: Images) {
    Missed(s, depth + 1, images) && Tail(s, depth + 1) !in images
  }

  lemma {:induction false} TailsAreNodes(q: CStr, n: nat,
                                         images: Images, buf: seq<Byte>, stored: map<CStr, CStr>)
    requires Indexed(images, buf, stored)
    requires q in images && n <= |q|
    ensures Tail(q, n) in images
    decreases |q|
  {
    if n < |q| {
      assert NodeOk(q, images[q], images, buf, stored);
      assert q[1..] == Tail(q, |q| - 1);
      TailTail(q, |q| - 1, n);
      TailsAreNodes(q[1..], n, images, buf, stored);
    }
  }

  lemma NotTailOf(s: CStr, depth: nat, v: CStr,
                  images: Images, buf: seq<Byte>, stored: map<CStr, CStr>)
    requires Indexed(images, buf, stored) && Stopped(s, depth, images)
    requires v in stored
    ensures !IsSuffix(s, v)
  {
    var q := stored[v];
    assert NodeOk(q, images[q], images, buf, stored);
    if IsSuffix(s, v) {
      if |q| < |s| {
        SuffixesNest(q, s, v);
      } else {
        SuffixesNest(s, q, v);
      }
      if depth < |q| {
        SuffixesNest(Tail(s, depth + 1), Tail(q, depth + 1), v);
        TailsAreNodes(q, depth + 1, images, buf, stored);
      }
      assert false;
    }
  }

  /** A walk that stops is a proof that no stored string ends in s. */
  lemma NotKnown(s: CStr, depth: nat, images: Images, buf: seq<Byte>, stored: map<CStr, CStr>)
    requires Indexed(images, buf, stored) && Stopped(s, depth, images)
    ensures !Known(s, stored.Keys)
  {
    forall v | v in stored
      ensures !IsSuffix(s, v)
    {
      NotTailOf(s, depth, v, images, buf, stored);
    }
  }

  /** Where the walk stopped there is room for a leaf: nothing lies below it yet. */
  lemma RoomForLeaf(s: CStr, depth: nat, q: CStr,
                    images: Images, buf: seq<Byte>, stored: map<CStr, CStr>)
    requires Indexed(images, buf, stored) && Stopped(s, depth, images)
    requires q == Tail(s, depth + 1)
    ensures q !in images && s !in stored
    ensures Sorted(images[Tail(s, depth)].labels) && q[0] !in images[Tail(s, depth)].labels
  {
    TailStep(s, depth);
    assert NodeOk(Tail(s, depth), images[Tail(s, depth)], images, buf, stored);
    NotKnown(s, depth, images, buf, stored);
    assert Tail(s, |s|) == s;
  }

  lemma NothingBelow(s: CStr, depth: nat, q: CStr,
                     images: Images, buf: seq<Byte>, stored: map<CStr, CStr>)
    requires Indexed(images, buf, stored) && Stopped(s, depth, images)
    requires q == Tail(s, depth + 1)
    ensures forall d: Char :: Cons(d, q) !in images
  {
    TailStep(s, depth);
    forall d: Char
      ensures Cons(d, q) !in images
    {
      assert Cons(d, q) in images ==> NodeOk(Cons(d, q), images[Cons(d, q)], images, buf, stored);
      assert Cons(d, q)[1..] == q;
    }
  }

  /** A node keeps its place when a leaf for s is hung at q, not directly below it. */
  lemma KeptOk(p: CStr, n: Image, images: Images, buf: seq<Byte>, stored: map<CStr, CStr>,
               q: CStr, images': Images, s: CStr)
    requires NodeOk(p, n, images, buf, stored)
    requires q !in images && s !in stored && images'.Keys == images.Keys + {q}
    requires forall d: Char :: Cons(d, p) != q
    ensures NodeOk(p, n, images', buf + s + [NUL], stored[s := q])
  {
    HoldsGrown(buf, n.valueOff, n.value, s + [NUL]);
    assert buf + (s + [NUL]) == buf + s + [NUL];
  }

  /** The node the leaf is hung below gains the label for it. */
  lemma ParentOk(p: CStr, n: Image, images: Images, buf: seq<Byte>, stored: map<CStr, CStr>,
                 c: Char, images': Images, s: CStr, labels: seq<Char>)
    requires NodeOk(p, n, images, buf, stored)
    requires Cons(c, p) !in images && s !in stored && images'.Keys == images.Keys + {Cons(c, p)}
    requires Sorted(labels)
    requires forall d :: d in labels <==> d in n.labels || d == c
    ensures NodeOk(p, n.(labels := labels), images', buf + s + [NUL], stored[s := Cons(c, p)])
  {
    HoldsGrown(buf, n.valueOff, n.value, s + [NUL]);
    assert buf + (s + [NUL]) == buf + s + [NUL];
    forall d: Char
      ensures Cons(d, p) in images' <==> d in labels
    {
      ConsInjective(c, p, d, p);
    }
  }

  lemma LeafOk(q: CStr, s: CStr, images: Images, buf: seq<Byte>, stored: map<CStr, CStr>, images': Images)
    requires q != [] && IsSuffix(q, s) && q[1..] in images && images'.Keys == images.Keys + {q}
    requires forall d: Char :: Cons(d, q) !in images
    ensures NodeOk(q, Image(|buf|, s, []), images', buf + s + [NUL], stored[s := q])
  {
    HoldsAppended(buf, s);
    forall d: Char
      ensures Cons(d, q) != q
    {
      ConsInjective(d, q, d, q);
    }
  }

  /** Hanging a leaf for s at q keeps every node in order. */
  lemma LeafAddedNodes(s: CStr, images: Images, buf: seq<Byte>, stored: map<CStr, CStr>,
                       p: CStr, q: CStr, labels: seq<Char>, images': Images, k: CStr)
    requires Indexed(images, buf, stored)
    requires p in images && q != [] && q == Cons(q[0], p) && q !in images && s !in stored && IsSuffix(q, s)
    requires forall d: Char :: Cons(d, q) !in images
    requires Sorted(labels) && forall d :: d in labels <==> d in images[p].labels || d == q[0]
    requires images' == images[p := images[p].(labels := labels)][q := Image(|buf|, s, [])]
    requires k in images'
    ensures NodeOk(k, images'[k], images', buf + s + [NUL], stored[s := q])
  {
    if k == q {
      assert q[1..] == p;
      LeafOk(q, s, images, buf, stored, images');
    } else {
      assert NodeOk(k, images[k], images, buf, stored);
      if k == p {
        ParentOk(p, images[p], images, buf, stored, q[0], images', s, labels);
      } else {
        forall d: Char
          ensures Cons(d, k) != q
        {
          ConsInjective(d, k, q[0], p);
        }
        KeptOk(k, images[k], images, buf, stored, q, images', s);
      }
    }
  }

  lemma AllNodes(s: CStr, images: Images, buf: seq<Byte>, stored: map<CStr, CStr>,
                 p: CStr, q: CStr, labels: seq<Char>, images': Images)
    requires Indexed(images, buf, stored)
    requires p in images && q != [] && q == Cons(q[0], p) && q !in images && s !in stored && IsSuffix(q, s)
    requires forall d: Char :: Cons(d, q) !in images
    requires Sorted(labels) && forall d :: d in labels <==> d in images[p].labels || d == q[0]
    requires images' == images[p := images[p].(labels := labels)][q := Image(|buf|, s, [])]
    ensures forall k {:trigger NodeOk(k, images'[k], images', buf + s + [NUL], stored[s := q])} ::
              k in images' ==> NodeOk(k, images'[k], images', buf + s + [NUL], stored[s := q])
  {
    forall k | k in images'
      ensures NodeOk(k, images'[k], images', buf + s + [NUL], stored[s := q])
    {
      LeafAddedNodes(s, images, buf, stored, p, q, labels, images', k);
    }
  }

  /** Hanging a leaf for s below the node where its walk stopped keeps the index. */
  lemma LeafAdded(s: CStr, depth: nat, images: Images, buf: seq<Byte>, stored: map<CStr, CStr>,
                  p: CStr, q: CStr, labels: seq<Char>, images': Images)
    requires Indexed(images, buf, stored) && Stopped(s, depth, images)
    requires p == Tail(s, depth) && q == Tail(s, depth + 1)
    requires Sorted(labels) && forall d :: d in labels <==> d in images[p].labels || d == q[0]
    requires images' == images[p := images[p].(labels := labels)][q := Image(|buf|, s, [])]
    ensures Indexed(images', buf + s + [NUL], stored[s := q])
  {
    TailStep(s, depth);
    RoomForLeaf(s, depth, q, images, buf, stored);
    NothingBelow(s, depth, q, images, buf, stored);
    AllNodes(s, images, buf, stored, p, q, labels, images');
  }

  /** The trie seen from outside: its nodes by path, what they hold, and where each stored string went. */
  datatype Index = Index(nodes: map<CStr, Ptr>, paths: seq<CStr>, images: Images, stored: map<CStr, CStr>)

  /** How much came in, and how much of it was found again. */
  datatype Stats = Stats(inCount: nat, inLen: nat, dedupLen: nat, dedupCount: nat)

  /** The record n is the node at path p. */
  ghost predicate LinkedAt(p: CStr, n: StrbufNode, nodes: map<CStr, Ptr>, image: Image) {
    && n.valueOff == image.valueOff
    && n.valueLen == |image.value|
    && Labels(n.children) == image.labels
    && (forall e :: e in n.children ==> Cons(e.c, p) in nodes && e.child == nodes[Cons(e.c, p)])
  }

  /** The node at path p has a record in the pool; paths tells whose it is. */
  ghost predicate Placed(p: CStr, pool: seq<StrbufNode>, nodes: map<CStr, Ptr>, paths: seq<CStr>, images: Images)
    requires p in nodes && p in images && |pool| == |paths|
  {
    nodes[p] < |pool| && paths[nodes[p]] == p && LinkedAt(p, pool[nodes[p]], nodes, images[p])
  }

  /** The records in the pool are the nodes the images describe. */
  ghost predicate Linked(pool: seq<StrbufNode>, nodes: map<CStr, Ptr>, paths: seq<CStr>, images: Images) {
    && images.Keys == nodes.Keys
    && |nodes| == |pool| == |paths|
    && forall p {:trigger Placed(p, pool, nodes, paths, images)} ::
         p in nodes ==> Placed(p, pool, nodes, paths, images)
  }

  /** A new leaf at the end of the pool, entered below the node at p, is linked in. */
  lemma LeafLinked(pool: seq<StrbufNode>, nodes: map<CStr, Ptr>, paths: seq<CStr>, images: Images, p: CStr, c: Char,
                   children: seq<ChildEntry>, leaf: StrbufNode, image: Image)
    requires Linked(pool, nodes, paths, images)
    requires p in nodes && Cons(c, p) !in nodes && Placed(p, pool, nodes, paths, images)
    requires forall e :: e in children <==> e in pool[nodes[p]].children || e == ChildEntry(c, |pool|)
    requires LinkedAt(Cons(c, p), leaf, nodes, image) && leaf.children == []
    ensures var images' := images[p := images[p].(labels := Labels(children))][Cons(c, p) := image];
            Linked(pool[nodes[p] := pool[nodes[p]].(children := children)] + [leaf],
                   nodes[Cons(c, p) := |pool|], paths + [Cons(c, p)], images')
  {
    var q := Cons(c, p);
    var pool' := pool[nodes[p] := pool[nodes[p]].(children := children)] + [leaf];
    var nodes' := nodes[q := |pool|];
    var images' := images[p := images[p].(labels := Labels(children))][q := image];
    forall k | k in nodes'
      ensures Placed(k, pool', nodes', paths + [q], images')
    {
      if k in nodes {
        assert Placed(k, pool, nodes, paths, images);
      }
    }
  }

  /** The string a node stands for ends in s at the end of the path, or where the bytes are those of s. */
  lemma NodeTells(s: CStr, d: nat, images: Images, buf: seq<Byte>, stored: map<CStr, CStr>, image: Image, off: int)
    requires s != [] && d <= |s| && Tail(s, d) in images && image == images[Tail(s, d)] && buf != [] && buf[0] == NUL
    requires NodeOk(Tail(s, d), image, images, buf, stored) && off == image.valueOff + |image.value| - |s|
    ensures 0 <= image.valueOff && image.valueOff + |image.value| < |buf|
    ensures d == |s| ==> |s| <= |image.value| && buf[off..off + |s|] == s
    ensures if |s| <= |image.value| && buf[off..off + |s|] == s then
              HoldsAt(buf, off, s) && off != 0 && Known(s, stored.Keys)
            else Missed(s, d, images) ==> Missed(s, d + 1, images)
  {
    HoldsBytes(buf, image.valueOff, image.value);
    if d == |s| {
      assert Tail(s, d) == s;
    }
    if |s| <= |image.value| {
      TailBytes(buf, image.valueOff, image.value, s);
      if IsSuffix(s, image.value) {
        SuffixHeld(buf, off, s, image.value, stored);
      }
    }
  }

  lemma SuffixHeld(buf: seq<Byte>, off: int, s: CStr, v: CStr, stored: map<CStr, CStr>)
    requires s != [] && IsSuffix(s, v) && v in stored && buf != [] && buf[0] == NUL
    requires HoldsAt(buf, off, Tail(v, |s|))
    ensures HoldsAt(buf, off, s) && off != 0 && Known(s, stored.Keys)
  {
    HoldsBytes(buf, off, s);
    assert v in stored.Keys;
  }

  class Strbuf {
    var buf: seq<Byte>
    var pool: seq<StrbufNode>
    // the root is the first node, until strbuf_complete() frees the trie
    var complete: bool
    var stats: Stats
    ghost var index: Index

    ghost predicate Valid()
      reads this
    {
      && buf != [] && buf[0] == NUL
      && Indexed(index.images, buf, index.stored)
      && (!complete ==> Linked(pool, index.nodes, index.paths, index.images) && index.nodes[[]] == 0)
    }

    /** The strings appended to the buffer so far. */
    ghost function Stored(): set<CStr>
      reads this
    {
      index.stored.Keys
    }

    /** The buffer holds the first NUL and, of all strings that came in, those not found again. */
    ghost predicate Counted()
      reads this
    {
      |buf| == 1 + (stats.inLen - stats.dedupLen) + (stats.inCount - stats.dedupCount)
    }

    constructor ()
      ensures Valid() && Counted() && !complete
      ensures buf == [NUL] && Stored() == {}
    {
      buf := [NUL];
      pool := [StrbufNode(0, 0, [])];
      complete := false;
      stats := Stats(0, 0, 0, 0);
      index := Index(map[[] := 0], [[]], map[[] := Image(0, [], [])], map[]);
      new;
      assert forall p :: p in index.nodes ==> p == [];
      forall c: Char
        ensures Cons(c, []) !in index.images
      {
        ConsInjective(c, [], c, []);
      }
      forall p | p in index.nodes
        ensures Placed(p, pool, index.nodes, index.paths, index.images)
      {
      }
    }

    /** strbuf_complete(): drop the trie, keep the buffer. */
    method Complete()
      requires Valid()
      modifies this
      ensures Valid() && complete
      ensures buf == old(buf) && stats == old(stats) && index == old(index)
    {
      complete := true;
      pool := [];
    }

    /** At a node, the end of the path or memcmp() tells whether the string stored for it ends in s. */
    method TailInNode(s: CStr, d: nat, node: Ptr) returns (found: bool, off: int)
      requires Valid() && !complete && s != [] && d <= |s| && Tail(s, d) in index.nodes
      requires node == index.nodes[Tail(s, d)]
      ensures found ==> HoldsAt(buf, off, s) && off != 0 && Known(s, Stored())
      ensures !found ==> d < |s|
      ensures !found && Missed(s, d, index.images) ==> Missed(s, d + 1, index.images)
    {
      assert Placed(Tail(s, d), pool, index.nodes, index.paths, index.images);
      var n := pool[node];
      off := n.valueOff + n.valueLen - |s|;
      assert NodeOk(Tail(s, d), index.images[Tail(s, d)], index.images, buf, index.stored);
      NodeTells(s, d, index.images, buf, index.stored, index.images[Tail(s, d)], off);
      found := d == |s| || (n.valueLen >= |s| && buf[off..off + |s|] == s);
    }

    /** The child for the next character, from the last on. */
    method ChildFor(s: CStr, d: nat, node: Ptr) returns (more: bool, child: Ptr)
      requires Valid() && !complete && d < |s| && Tail(s, d) in index.nodes && node == index.nodes[Tail(s, d)]
      ensures more <==> Tail(s, d + 1) in index.nodes
      ensures more ==> child == index.nodes[Tail(s, d + 1)]
    {
      assert Placed(Tail(s, d), pool, index.nodes, index.paths, index.images);
      assert NodeOk(Tail(s, d), index.images[Tail(s, d)], index.images, buf, index.stored);
      TailStep(s, d);
      more, child := Bsearch(pool[node].children, s[|s| - 1 - d]);
    }

    /** Follow s from its last character; stop at a hit or where the trie ends. */
    method Walk(s: CStr) returns (found: bool, off: int, node: Ptr, c: Char, ghost depth: nat)
      requires Valid() && !complete && s != []
      ensures found ==> HoldsAt(buf, off, s) && off != 0 && Known(s, Stored())
      ensures !found ==> Stopped(s, depth, index.images) && node == index.nodes[Tail(s, depth)] &&
                         c == Tail(s, depth + 1)[0]
    {
      node := 0;
      c := s[|s| - 1];
      var d := 0;
      while d <= |s|
        invariant 0 <= d <= |s|
        invariant Tail(s, d) in index.nodes && node == index.nodes[Tail(s, d)]
        invariant Missed(s, d, index.images)
        decreases |s| - d
      {
        found, off := TailInNode(s, d, node);
        if found {
          return true, off, node, c, d;
        }
        c := s[|s| - 1 - d];
        TailStep(s, d);
        var more, child := ChildFor(s, d, node);
        if !more {
          return false, off, node, c, d;
        }
        node := child;
        d := d + 1;
      }
      assert false;
    }

    /** bubbleinsert(). */
    method BubbleInsert(node: Ptr, c: Char, child: Ptr)
      requires node < |pool|
      requires Sorted(Labels(pool[node].children)) && c !in Labels(pool[node].children)
      modifies this`pool
      ensures |pool| == |old(pool)|
      ensures pool == old(pool)[node := old(pool)[node].(children := pool[node].children)]
      ensures Sorted(Labels(pool[node].children))
      ensures forall d :: d in Labels(pool[node].children) <==> d in Labels(old(pool)[node].children) || d == c
      ensures forall e :: e in pool[node].children <==> e in old(pool)[node].children || e == ChildEntry(c, child)
    {
      var grown := InsertSorted(pool[node].children, c, child);
      pool := pool[node := pool[node].(children := grown)];
    }

    /** Append s and hang a leaf for it below node. */
    method Append(s: CStr, node: Ptr, c: Char, ghost depth: nat) returns (off: int)
      requires Valid() && !complete && Stopped(s, depth, index.images)
      requires node == index.nodes[Tail(s, depth)] && c == Tail(s, depth + 1)[0]
      modifies this`buf, this`pool, this`index
      ensures Valid()
      ensures off == |old(buf)| && buf == old(buf) + s + [NUL]
      ensures HoldsAt(buf, off, s)
      ensures Stored() == old(Stored()) + {s}
    {
      ghost var p, q := Tail(s, depth), Tail(s, depth + 1);
      ghost var Index(nodes, paths, images, stored) := index;
      RoomForLeaf(s, depth, q, images, buf, stored);
      HoldsAppended(buf, s);
      TailStep(s, depth);
      assert Placed(p, pool, nodes, paths, images);
      off := |buf|;
      buf := buf + s + [NUL];
      var leaf := |pool|;
      BubbleInsert(node, c, leaf);
      ghost var children := pool[node].children;
      pool := pool + [StrbufNode(off, |s|, [])];
      ghost var images' := images[p := images[p].(labels := Labels(children))][q := Image(off, s, [])];
      LeafAdded(s, depth, images, old(buf), stored, p, q, Labels(children), images');
      LeafLinked(old(pool), nodes, paths, images, p, c, children, StrbufNode(off, |s|, []), Image(off, s, []));
      index := Index(nodes[q := leaf], paths + [q], images', stored[s := q]);
    }

    method AddString(s: CStr) returns (off: int)
      requires Valid() && Counted()
      modifies this
      ensures Valid() && Counted()
      ensures complete == old(complete)
      ensures old(complete) ==> off == -22 && buf == old(buf) && Stored() == old(Stored())
      ensures !old(complete) ==> Added(s, off, old(buf), old(Stored()), buf, Stored())
    {
      if complete {
        return -EINVAL;
      }
      if |s| == 0 {
        return 0;
      }
      stats := stats.(inCount := stats.inCount + 1, inLen := stats.inLen + |s|);
      var found, o, node, c, depth := Walk(s);
      off := o;
      if found {
        stats := stats.(dedupLen := stats.dedupLen + |s|, dedupCount := stats.dedupCount + 1);
        return;
      }
      NotKnown(s, depth, index.images, buf, index.stored);
      off := Append(s, node, c, depth);
    }
  }
}
