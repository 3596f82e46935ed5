/**
  Writing the trie to hwdb.bin: trie_store_nodes_size(), trie_store_nodes() and
  trie_store() of src/udevadm/udevadm-hwdb.c.
  */
module HwdbStore {
  import opened CStrings
  import opened ChildArrays
  import opened HwdbTrie
  import opened PatternTree
  import opened HwdbFile

  /** The records from node on, with the strings in buf, spell out the tree. */
  ghost predicate IsTree(pool: seq<TrieNode>, buf: seq<Byte>, node: Ptr, t: Tree)
    decreases t
  {
    && node < |pool|
    && HoldsAt(buf, pool[node].prefixOff, t.prefix)
    && ValuesHeld(pool[node].values, t.pairs, buf)
    && |pool[node].children| == |t.kids|
    && forall i :: 0 <= i < |t.kids| ==>
                     && pool[node].children[i].c == t.kids[i].c
                     && IsTree(pool, buf, pool[node].children[i].child, t.kids[i].tree)
  }

  /** The space a tree takes in the file. */
  function TreeSize(t: Tree): (n: nat)
    ensures n >= RecordSize(t)
    decreases t, |t.kids| + 1
  {
    KidsSize(t, |t.kids|) + RecordSize(t)
  }

  function KidsSize(t: Tree, n: nat): nat
    requires n <= |t.kids|
    decreases t, n
  {
    if n == 0 then 0 else KidsSize(t, n - 1) + TreeSize(t.kids[n - 1].tree)
  }

  lemma {:induction false} KidsSizeGrows(t: Tree, m: nat, n: nat)
    requires m <= n <= |t.kids|
    ensures KidsSize(t, m) <= KidsSize(t, n)
    decreases n
  {
    if m < n {
      KidsSizeGrows(t, m, n - 1);
    }
  }

  /** The labels of a tree's children are sorted bytes, so their number fits the uint8_t of the record. */
  lemma KidsFitByte(t: Tree)
    requires Ordered(t)
    ensures |t.kids| <= 255
  {
    var labels := seq(|t.kids|, i requires 0 <= i < |t.kids| => t.kids[i].c);
    SortedFitsByte(labels);
  }

  lemma ExtendsTransitive(a: seq<Byte>, b: seq<Byte>, c: seq<Byte>)
    requires Extends(a, b) && Extends(b, c)
    ensures Extends(a, c)
  {
    var h := HEADER_SIZE;
    assert c[h..|a|] == c[h..|b|][..|a| - h];
    assert b[h..|a|] == b[h..][..|a| - h];
  }

  lemma ExtendsAppend(a: seq<Byte>, more: seq<Byte>)
    requires HEADER_SIZE <= |a|
    ensures Extends(a, a + more)
  {
  }

  /** The first children of t are stored, at these offsets. */
  ghost predicate ChildrenStored(file: seq<Byte>, strings: seq<Byte>, stringsOff: nat, offs: seq<nat>, t: Tree)
    requires |offs| <= |t.kids|
    decreases |offs|
  {
    offs == [] ||
    (var n := |offs| - 1;
     && ChildrenStored(file, strings, stringsOff, offs[..n], t)
     && offs[n] < |file|
     && Stored(file, strings, stringsOff, offs[n], t.kids[n].tree))
  }

  lemma {:induction false} ChildrenExtend(file: seq<Byte>, file': seq<Byte>, strings: seq<Byte>, stringsOff: nat,
                                          offs: seq<nat>, t: Tree)
    requires |offs| <= |t.kids| && ChildrenStored(file, strings, stringsOff, offs, t) && Extends(file, file')
    ensures ChildrenStored(file', strings, stringsOff, offs, t)
    decreases |offs|
  {
    if offs != [] {
      var n := |offs| - 1;
      ChildrenExtend(file, file', strings, stringsOff, offs[..n], t);
      StoredExtend(file, file', strings, stringsOff, offs[n], t.kids[n].tree);
    }
  }

  /** Behind what was there the first children are written, and nothing else. */
  ghost predicate KidsWritten(start: seq<Byte>, file: seq<Byte>, strings: seq<Byte>, stringsOff: nat, offs: seq<nat>,
                              t: Tree) {
    && |offs| <= |t.kids| && Extends(start, file) && |file| == |start| + KidsSize(t, |offs|)
    && ChildrenStored(file, strings, stringsOff, offs, t)
  }

  lemma NoValueYet(before: seq<Byte>, record: seq<Byte>, entries: seq<Byte>, n: TrieNode, stringsOff: nat)
    ensures before + record + entries == before + (record + entries + ValueRecords(n.values, stringsOff, 0))
    ensures entries == [] ==>
              before + record == before + (record + entries + ValueRecords(n.values, stringsOff, 0))
  {
  }

  lemma OneMoreValue(before: seq<Byte>, head: seq<Byte>, n: TrieNode, stringsOff: nat, i: nat)
    requires i < |n.values|
    ensures before + (head + ValueRecords(n.values, stringsOff, i)) +
            ValueRecord(stringsOff + n.values[i].keyOff, stringsOff + n.values[i].valueOff) ==
            before + (head + ValueRecords(n.values, stringsOff, i + 1))
  {
  }

  lemma OneMoreChild(file: seq<Byte>, file': seq<Byte>, strings: seq<Byte>, stringsOff: nat, offs: seq<nat>, off: nat,
                     t: Tree)
    requires |offs| < |t.kids| && ChildrenStored(file, strings, stringsOff, offs, t) && Extends(file, file')
    requires off < |file'| && Stored(file', strings, stringsOff, off, t.kids[|offs|].tree)
    ensures ChildrenStored(file', strings, stringsOff, offs + [off], t)
  {
    ChildrenExtend(file, file', strings, stringsOff, offs, t);
    assert (offs + [off])[..|offs|] == offs;
  }

  lemma {:induction false} ChildStored(file: seq<Byte>, strings: seq<Byte>, stringsOff: nat, offs: seq<nat>, t: Tree,
                                       i: nat)
    requires |offs| <= |t.kids| && ChildrenStored(file, strings, stringsOff, offs, t) && i < |offs|
    ensures offs[i] < |file| && Stored(file, strings, stringsOff, offs[i], t.kids[i].tree)
    decreases |offs|
  {
    if i < |offs| - 1 {
      ChildStored(file, strings, stringsOff, offs[..|offs| - 1], t, i);
    }
  }

  /** What a node needs to be written: its tree, and its children in the file. */
  ghost predicate Writable(file: seq<Byte>, n: TrieNode, offs: seq<nat>, stringsOff: nat, buf: seq<Byte>, t: Tree) {
    && HEADER_SIZE <= |file| < TWO64 && 0 < stringsOff && stringsOff + |buf| < TWO64 && |n.values| < TWO64
    && |n.children| == |offs| == |t.kids| <= 255
    && HoldsAt(buf, n.prefixOff, t.prefix) && ValuesHeld(n.values, t.pairs, buf)
    && (forall i :: 0 <= i < |t.kids| ==> n.children[i].c == t.kids[i].c)
    && ChildrenStored(file, buf, stringsOff, offs, t)
  }

  lemma KidWritten(before: seq<Byte>, n: TrieNode, offs: seq<nat>, stringsOff: nat, buf: seq<Byte>, t: Tree, i: nat)
    requires Writable(before, n, offs, stringsOff, buf, t) && i < |t.kids|
    ensures var file := before + NodeBytes(n, offs, stringsOff);
            && file[ChildEntryOff(|before|, i)] == t.kids[i].c
            && U64(file, ChildEntryOff(|before|, i) + 8) == offs[i] < |before|
            && Stored(file, buf, stringsOff, offs[i], t.kids[i].tree)
  {
    ChildStored(before, buf, stringsOff, offs, t, i);
    ChildFields(before, n, offs, stringsOff, i);
    ExtendsAppend(before, NodeBytes(n, offs, stringsOff));
    StoredExtend(before, before + NodeBytes(n, offs, stringsOff), buf, stringsOff, offs[i], t.kids[i].tree);
  }

  lemma PairWritten(before: seq<Byte>, n: TrieNode, offs: seq<nat>, stringsOff: nat, buf: seq<Byte>, t: Tree, i: nat)
    requires Writable(before, n, offs, stringsOff, buf, t) && i < |t.pairs|
    ensures var file := before + NodeBytes(n, offs, stringsOff);
            && StringAt(file, buf, stringsOff, ValueEntryOff(|before|, |t.kids|, i), t.pairs[i].0)
            && StringAt(file, buf, stringsOff, ValueEntryOff(|before|, |t.kids|, i) + 8, t.pairs[i].1)
  {
    ValueFields(before, n, offs, stringsOff, i);
  }

  /** A node written behind its children: the record and what it refers to spell out the tree. */
  lemma NodeStored(before: seq<Byte>, n: TrieNode, offs: seq<nat>, stringsOff: nat, buf: seq<Byte>, t: Tree)
    requires Writable(before, n, offs, stringsOff, buf, t)
    ensures Stored(before + NodeBytes(n, offs, stringsOff), buf, stringsOff, |before|, t)
  {
    var file := before + NodeBytes(n, offs, stringsOff);
    NodeFields(before, n, offs, stringsOff);
    forall i | 0 <= i < |t.kids|
      ensures file[ChildEntryOff(|before|, i)] == t.kids[i].c
      ensures U64(file, ChildEntryOff(|before|, i) + 8) < |before|
      ensures Stored(file, buf, stringsOff, U64(file, ChildEntryOff(|before|, i) + 8), t.kids[i].tree)
    {
      KidWritten(before, n, offs, stringsOff, buf, t, i);
    }
    forall i | 0 <= i < |t.pairs|
      ensures StringAt(file, buf, stringsOff, ValueEntryOff(|before|, |t.kids|, i), t.pairs[i].0)
      ensures StringAt(file, buf, stringsOff, ValueEntryOff(|before|, |t.kids|, i) + 8, t.pairs[i].1)
    {
      PairWritten(before, n, offs, stringsOff, buf, t, i);
    }
  }

  const EFBIG: int := 27

  class TrieF {
    // the file, written at its end
    var file: seq<Byte>
    var stringsOff: nat
    const trie: Trie

    constructor (trie: Trie)
      ensures this.trie == trie && file == [] && stringsOff == 0
    {
      this.trie := trie;
      file := [];
      stringsOff := 0;
    }

    /** trie_store_nodes_size(). */
    method StoreNodesSize(node: Ptr, ghost t: Tree)
      requires IsTree(trie.pool, trie.strings.buf, node, t)
      modifies this`stringsOff
      ensures stringsOff == old(stringsOff) + TreeSize(t)
      decreases t
    {
      var n := trie.pool[node];
      for i := 0 to |n.children|
        invariant stringsOff == old(stringsOff) + KidsSize(t, i)
      {
        StoreNodesSize(n.children[i].child, t.kids[i].tree);
      }
      stringsOff := stringsOff + 24;
      ghost var start := stringsOff;
      for i := 0 to |n.children|
        invariant stringsOff == start + 16 * i
      {
        stringsOff := stringsOff + 16;
      }
      start := stringsOff;
      for i := 0 to |n.values|
        invariant stringsOff == start + 16 * i
      {
        stringsOff := stringsOff + 16;
      }
    }

    /** The loop over the children; a child's array entry gets the offset its record was written to. */
    method StoreChildren(n: TrieNode, ghost node: Ptr, ghost t: Tree) returns (offs: seq<nat>)
      requires IsTree(trie.pool, trie.strings.buf, node, t) && n == trie.pool[node] && Ordered(t)
      requires HEADER_SIZE <= |file| && |file| + KidsSize(t, |t.kids|) <= stringsOff
      requires stringsOff + |trie.strings.buf| < TWO64
      modifies this`file
      ensures Extends(old(file), file) && |file| == |old(file)| + KidsSize(t, |t.kids|)
      ensures |offs| == |t.kids| && ChildrenStored(file, trie.strings.buf, stringsOff, offs, t)
      decreases t, 1
    {
      offs := [];
      for i := 0 to |n.children|
        invariant |offs| == i && KidsWritten(old(file), file, trie.strings.buf, stringsOff, offs, t)
      {
        var off := StoreChild(n.children[i].child, old(file), offs, t);
        offs := offs + [off];
      }
    }

    /** One child more. */
    method StoreChild(child: Ptr, ghost start: seq<Byte>, ghost offs: seq<nat>, ghost t: Tree) returns (off: nat)
      requires KidsWritten(start, file, trie.strings.buf, stringsOff, offs, t) && |offs| < |t.kids|
      requires IsTree(trie.pool, trie.strings.buf, child, t.kids[|offs|].tree) && Ordered(t.kids[|offs|].tree)
      requires |start| + KidsSize(t, |t.kids|) <= stringsOff && stringsOff + |trie.strings.buf| < TWO64
      modifies this`file
      ensures KidsWritten(start, file, trie.strings.buf, stringsOff, offs + [off], t)
      decreases t, 0
    {
      ghost var before := file;
      KidsSizeGrows(t, |offs| + 1, |t.kids|);
      off := StoreNodes(child, t.kids[|offs|].tree);
      ExtendsTransitive(start, before, file);
      OneMoreChild(before, file, trie.strings.buf, stringsOff, offs, off, t);
    }

    /** The node's record and its two arrays. */
    method WriteNode(n: TrieNode, offs: seq<nat>)
      requires |n.children| == |offs| <= 255
      modifies this`file
      ensures file == old(file) + NodeBytes(n, offs, stringsOff)
    {
      ghost var before := file;
      var record := NodeRecord(stringsOff + n.prefixOff, |n.children|, |n.values|);
      var entries := ChildRecords(n.children, offs, |n.children|);
      file := file + record;
      if |n.children| > 0 {
        file := file + entries;
      }
      NoValueYet(before, record, entries, n, stringsOff);
      for i := 0 to |n.values|
        invariant file == before + (record + entries + ValueRecords(n.values, stringsOff, i))
      {
        OneMoreValue(before, record + entries, n, stringsOff, i);
        file := file + ValueRecord(stringsOff + n.values[i].keyOff, stringsOff + n.values[i].valueOff);
      }
    }

    /** trie_store_nodes(): post-order, so that a node can refer to where its children are. */
    method StoreNodes(node: Ptr, ghost t: Tree) returns (off: nat)
      requires IsTree(trie.pool, trie.strings.buf, node, t) && Ordered(t)
      requires HEADER_SIZE <= |file| && |file| + TreeSize(t) <= stringsOff
      requires stringsOff + |trie.strings.buf| < TWO64
      modifies this`file
      ensures Extends(old(file), file)
      ensures |file| == |old(file)| + TreeSize(t) && off < |file|
      ensures Stored(file, trie.strings.buf, stringsOff, off, t)
      decreases t, 2
    {
      KidsFitByte(t);
      var n := trie.pool[node];
      var offs := StoreChildren(n, node, t);
      off := |file|;
      ghost var before := file;
      NodeStored(before, n, offs, stringsOff, trie.strings.buf, t);
      WriteNode(n, offs);
      ExtendsAppend(before, NodeBytes(n, offs, stringsOff));
      ExtendsTransitive(old(file), before, file);
    }

    /** The end of trie_store(): the strings behind the nodes, and the header in place of the hole. */
    method StringsAndHeader(toolVersion: nat, rootOff: nat, ghost t: Tree)
      requires HEADER_SIZE <= |file| && rootOff < |file| && toolVersion < TWO64
      requires |file| + |trie.strings.buf| < TWO64 && Stored(file, trie.strings.buf, |file|, rootOff, t)
      modifies this`file
      ensures FileWritten(file, trie.strings.buf, old(|file|), t)
      ensures HeaderWritten(file, toolVersion, old(|file|) - HEADER_SIZE, |trie.strings.buf|)
    {
      var pos := |file|;
      ghost var nodes := file;
      file := file + trie.strings.buf;
      var size := |file|;
      var header := Header(toolVersion, size, rootOff, pos - HEADER_SIZE, |trie.strings.buf|);
      file := header + file[HEADER_SIZE..];
      FileComplete(nodes, trie.strings.buf, toolVersion, rootOff, t, file);
    }

    /**
      trie_store().  The size computed beforehand, which every string offset in the file
      relies on, is where the string buffer comes to lie.  Writing beyond the largest
      off_t fails, and then no file is left.
      */
    method Store(toolVersion: nat, ghost t: Tree) returns (err: int)
      requires IsTree(trie.pool, trie.strings.buf, 0, t) && Ordered(t)
      requires toolVersion < TWO64
      modifies this
      ensures err == if 80 + TreeSize(t) + |trie.strings.buf| < 0x8000_0000_0000_0000 then 0 else -27
      ensures err == 0 ==>
                stringsOff == HEADER_SIZE + TreeSize(t) && FileWritten(file, trie.strings.buf, stringsOff, t)
      ensures err == 0 ==> HeaderWritten(file, toolVersion, TreeSize(t), |trie.strings.buf|)
    {
      stringsOff := HEADER_SIZE;
      StoreNodesSize(0, t);
      if stringsOff + |trie.strings.buf| >= TWO64 / 2 {
        return -EFBIG;
      }
      // the file position is moved behind the header, which stays a hole
      file := seq(HEADER_SIZE, _ => 0);
      var rootOff := StoreNodes(0, t);
      StringsAndHeader(toolVersion, rootOff, t);
      return 0;
    }
  }
}
