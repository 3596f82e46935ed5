/**
  lib/libudev-hwdb.c: looking up a string in the file.  Nodes are read where their
  offsets lead; the patterns of a subtree are pieced together in a line buffer.
  */
module HwdbReader {
  import opened CStrings
  import opened ChildArrays
  import opened PatternTree
  import opened HwdbFile
  import opened LookupSpec
  import opened SignedSearch
  import UdevLists

  const LINE_MAX: nat := 2048
  const SPACE: Char := 32

  class Linebuf {
    const bytes: array<Byte>
    var len: nat

    ghost predicate Valid()
      reads this
    {
      bytes.Length == LINE_MAX && len < LINE_MAX
    }

    ghost predicate Holds(line: CStr)
      reads this, bytes
    {
      Valid() && bytes[..len] == line
    }

    /** linebuf_init() */
    constructor ()
      ensures Holds([]) && fresh(bytes)
    {
      bytes := new Byte[LINE_MAX];
      len := 0;
    }

    /** linebuf_get(): terminates the line, unless that would be too long. */
    method Get(ghost line: CStr) returns (ok: bool, s: CStr)
      requires Holds(line)
      modifies bytes
      ensures Holds(line)
      ensures ok <==> |line| + 1 < 2048
      ensures ok ==> s == line
    {
      if len + 1 >= LINE_MAX {
        return false, [];
      }
      bytes[len] := NUL;
      HoldsBytes(bytes[..], 0, line);
      return true, StrAt(bytes[..], 0);
    }

    /** linebuf_add() */
    method Add(s: CStr, ghost line: CStr) returns (ok: bool)
      requires Holds(line)
      modifies this, bytes
      ensures ok <==> |line| + |s| < 2048
      ensures Holds(if ok then line + s else line)
    {
      if len + |s| >= LINE_MAX {
        return false;
      }
      forall i | 0 <= i < |s| {
        bytes[len + i] := s[i];
      }
      len := len + |s|;
      return true;
    }

    /** linebuf_add_char() */
    method AddChar(c: Char, ghost line: CStr) returns (ok: bool)
      requires Holds(line)
      modifies this, bytes
      ensures ok <==> |line| + 1 < 2048
      ensures Holds(if ok then Snoc(line, c) else line)
    {
      if len + 1 >= LINE_MAX {
        return false;
      }
      bytes[len] := c;
      len := len + 1;
      return true;
    }

    /** linebuf_rem() */
    method Rem(count: nat, ghost line: CStr)
      requires Holds(line) && count <= |line|
      modifies this
      ensures Holds(line[..|line| - count])
    {
      len := len - count;
    }
  }

  // ---- what a lookup leaves in the property list ----

  type Properties = map<CStr, UdevLists.Value>

  /** Only keys that start with a space are properties, without the space; a later one replaces an earlier. */
  function AfterHit(found: Properties, key: CStr, value: CStr): Properties {
    if key != [] && key[0] == SPACE then found[key[1..] := UdevLists.Str(value)] else found
  }

  function AfterHits(found: Properties, hits: seq<Hit>): Properties {
    if hits == [] then found
    else
      var n := |hits| - 1;
      AfterHit(AfterHits(found, hits[..n]), hits[n].key, hits[n].value)
  }

  lemma {:induction false} AfterMoreHits(found: Properties, a: seq<Hit>, b: seq<Hit>)
    ensures AfterHits(found, a + b) == AfterHits(AfterHits(found, a), b)
    decreases |b|
  {
    if b == [] {
      assert a + b == a;
    } else {
      var n := |b| - 1;
      AfterMoreHits(found, a, b[..n]);
      assert (a + b)[..|a + b| - 1] == a + b[..n];
    }
  }

  lemma AfterSubtree(found: Properties, t: Tree, p: nat, base: CStr, acc: CStr, search: CStr, fnm: Fnmatch, line: CStr)
    requires p <= |t.prefix| && line == acc + t.prefix[p..]
    ensures AfterHits(found, Subtree(t, p, base, acc, search, fnm)) ==
            AfterHits(AfterHits(found, Kids(t, 0, base, line, search, fnm)), Own(t, base, line, search, fnm))
  {
    AfterMoreHits(found, Kids(t, 0, base, line, search, fnm), Own(t, base, line, search, fnm));
  }


  lemma AfterNoPair(found: Properties, pattern: CStr, pairs: seq<(CStr, CStr)>)
    ensures AfterPairs(found, found, pattern, pairs, 0)
  {
  }

  lemma AfterOnePair(contents: Properties, found: Properties, pattern: CStr, pairs: seq<(CStr, CStr)>, n: nat)
    requires n < |pairs| && AfterPairs(contents, found, pattern, pairs, n)
    ensures AfterPairs(AfterHit(contents, pairs[n].0, pairs[n].1), found, pattern, pairs, n + 1)
  {
    var hits := PairHits(pattern, pairs, n + 1);
    assert hits[..|hits| - 1] == PairHits(pattern, pairs, n);
  }

  /** The properties after the first n values of a node. */
  ghost predicate AfterPairs(contents: Properties, found: Properties, pattern: CStr, pairs: seq<(CStr, CStr)>, n: nat) {
    n <= |pairs| && contents == AfterHits(found, PairHits(pattern, pairs, n))
  }

  lemma OneChar(c: Char)
    ensures Snoc([], c) == [c] && [c][..0] == []
  {
  }

  /** With the children from the i-th on still to come, the properties will be the result. */
  ghost predicate KidsLeft(contents: Properties, result: Properties, t: Tree, i: nat, base: CStr, line: CStr,
                           search: CStr, fnm: Fnmatch) {
    i <= |t.kids| && AfterHits(contents, Kids(t, i, base, line, search, fnm)) == result
  }

  lemma KidsNext(contents: Properties, contents': Properties, result: Properties, t: Tree, i: nat, base: CStr,
                 line: CStr, search: CStr, fnm: Fnmatch)
    requires KidsLeft(contents, result, t, i, base, line, search, fnm) && i < |t.kids|
    requires contents' == AfterHits(contents, Subtree(t.kids[i].tree, 0, base, Snoc(line, t.kids[i].c), search, fnm))
    ensures KidsLeft(contents', result, t, i + 1, base, line, search, fnm)
  {
    AfterMoreHits(contents, Subtree(t.kids[i].tree, 0, base, Snoc(line, t.kids[i].c), search, fnm),
                  Kids(t, i + 1, base, line, search, fnm));
  }

  lemma KidsDone(contents: Properties, result: Properties, t: Tree, base: CStr, line: CStr, search: CStr, fnm: Fnmatch)
    requires KidsLeft(contents, result, t, |t.kids|, base, line, search, fnm)
    ensures contents == result
  {
  }

  /** Entered with a line of this length, the tree has no pattern too long for the buffer. */
  ghost predicate Fits(t: Tree, len: int) {
    && len + |t.prefix| + 1 < LINE_MAX
    && forall i :: 0 <= i < |t.kids| ==> Fits(t.kids[i].tree, len + |t.prefix| + 1)
  }

  lemma {:induction false} FitsShorter(t: Tree, len: int, len': int)
    requires Fits(t, len) && len' <= len
    ensures Fits(t, len')
    decreases t
  {
    forall i | 0 <= i < |t.kids|
      ensures Fits(t.kids[i].tree, len' + |t.prefix| + 1)
    {
      FitsShorter(t.kids[i].tree, len + |t.prefix| + 1, len' + |t.prefix| + 1);
    }
  }

  lemma FitsBelow(t: Tree, len: int, line: CStr)
    requires Fits(t, len) && |line| == len + |t.prefix|
    ensures |line| + 1 < LINE_MAX && forall i :: 0 <= i < |t.kids| ==> Fits(t.kids[i].tree, |line| + 1)
  {
  }

  /** What is left to find from a node, after so many characters of a given search string. */
  type Finder = (Tree, nat) -> seq<Hit>

  ghost predicate Finds(find: Finder, s: CStr, fnm: Fnmatch, signed: bool) {
    forall t: Tree, i: nat {:trigger SearchIn(t, s, i, fnm, signed)} ::
      i <= |s| ==> find(t, i) == SearchIn(t, s, i, fnm, signed)
  }

  ghost function Searching(s: CStr, fnm: Fnmatch, signed: bool): (find: Finder)
    ensures Finds(find, s, fnm, signed)
  {
    (t: Tree, i: nat) => if i <= |s| then SearchIn(t, s, i, fnm, signed) else []
  }

  lemma FoundPast(find: Finder, t: Tree, s: CStr, i: nat, j: nat, fnm: Fnmatch, signed: bool)
    requires Finds(find, s, fnm, signed) && i <= |s| && Pass(t.prefix, s, i, signed) == |t.prefix| == j - i
    ensures j <= |s| && find(t, i) == GlobKids(t, s, j, fnm) + OnwardIn(t, s, j, fnm, signed)
  {
    PassPast(t, s, i, j, fnm, signed);
  }

  lemma FoundOnward(find: Finder, t: Tree, s: CStr, j: nat, fnm: Fnmatch, signed: bool)
    requires Finds(find, s, fnm, signed) && j <= |s|
    ensures j == |s| ==> OnwardIn(t, s, j, fnm, signed) == PairHits(s, t.pairs, |t.pairs|)
    ensures j < |s| ==>
              var k := KidIndex(t.kids, s[j]);
              OnwardIn(t, s, j, fnm, signed) == if k < |t.kids| then find(t.kids[k].tree, j + 1) else []
  {
    if j < |s| && KidIndex(t.kids, s[j]) < |t.kids| {
      var hits := SearchIn(t.kids[KidIndex(t.kids, s[j])].tree, s, j + 1, fnm, signed);
    }
  }

  lemma FoundInside(find: Finder, t: Tree, s: CStr, i: nat, fnm: Fnmatch, signed: bool)
    requires Finds(find, s, fnm, signed) && i <= |s| && Pass(t.prefix, s, i, signed) < |t.prefix|
    ensures var p := Pass(t.prefix, s, i, signed);
            find(t, i) == if IsGlob(t.prefix[p]) then Subtree(t, p, s[..i + p], [], s[i + p..], fnm) else []
  {
    var hits := SearchIn(t, s, i, fnm, signed);
  }

  class Hwdb {
    const file: seq<Byte>
    const properties: UdevLists.UdevList
    const fnm: Fnmatch
    // whether plain char is signed
    const signed: bool

    /** The file has the layout of this version, and spells out the tree. */
    ghost predicate Readable(t: Tree) {
      && Recognized(file)
      && NodeSizeField(file) == 24 && ChildEntrySizeField(file) == 16 && ValueEntrySizeField(file) == 16
      && Stored(file, file, 0, RootOffField(file), t)
      && Ordered(t)
      && Fits(t, 0)
    }

    // which offset is whose: what Record() says, looked up only where a record is read
    ghost const isNode: (nat, Tree) -> bool

    /** The file has the layout of this version, and the record at the offset and those it leads to spell out t. */
    static ghost predicate InFile(file: seq<Byte>, node: nat, t: Tree) {
      && HEADER_SIZE <= |file|
      && NodeSizeField(file) == 24 && ChildEntrySizeField(file) == 16 && ValueEntrySizeField(file) == 16
      && Stored(file, file, 0, node, t) && Ordered(t)
    }

    ghost predicate Record(node: nat, t: Tree) {
      isNode(node, t) <==> InFile(file, node, t)
    }

    ghost predicate Nodes() {
      forall node: nat, t: Tree {:trigger Record(node, t)} :: Record(node, t)
    }

    ghost predicate IsNode(node: nat, t: Tree) {
      Nodes() && isNode(node, t)
    }

    ghost predicate Valid()
      reads properties
    {
      properties.unique && properties.Valid() && Nodes()
    }

    constructor (file: seq<Byte>, fnm: Fnmatch, signed: bool)
      ensures Valid() && this.file == file && this.fnm == fnm && this.signed == signed && fresh(properties)
    {
      this.file := file;
      this.fnm := fnm;
      this.signed := signed;
      isNode := (node: nat, t: Tree) => InFile(file, node, t);
      properties := new UdevLists.UdevList(true);
    }

    /** udev_hwdb_new(), once the file is there: it is refused when too short, foreign or cut off. */
    static method New(file: seq<Byte>, fnm: Fnmatch, signed: bool) returns (hwdb: Hwdb?)
      ensures hwdb != null <==> Recognized(file)
      ensures hwdb != null <==> |file| >= 80 && file[..8] == [75, 83, 76, 80, 72, 72, 82, 72] && U64(file, 16) == |file|
      ensures hwdb != null ==>
                && fresh(hwdb) && fresh(hwdb.properties) && hwdb.Valid()
                && hwdb.file == file && hwdb.fnm == fnm && hwdb.signed == signed
    {
      if |file| < HEADER_SIZE {
        return null;
      }
      if file[..8] != SIGNATURE || |file| != FileSizeField(file) {
        return null;
      }
      hwdb := new Hwdb(file, fnm, signed);
    }

    /** trie_string() */
    method String(at: nat, ghost s: CStr) returns (r: CStr)
      requires at + 8 <= |file| && StringAt(file, file, 0, at, s)
      ensures r == s
    {
      r := StrAt(file, U64(file, at));
    }

    /** How many children it has. */
    method ChildrenCount(node: nat, ghost t: Tree) returns (count: nat)
      requires IsNode(node, t)
      ensures count == |t.kids|
    {
      assert Record(node, t);
      count := file[node + 8];
    }

    /** The i-th child entry of a node. */
    method ChildAt(node: nat, i: nat, ghost t: Tree) returns (c: Char, child: nat)
      requires IsNode(node, t) && i < |t.kids|
      ensures c == t.kids[i].c && IsNode(child, t.kids[i].tree)
    {
      assert Record(node, t);
      var e := node + NodeSizeField(file) + 16 * i;
      assert e == ChildEntryOff(node, i);
      assert Record(U64(file, e + 8), t.kids[i].tree);
      c, child := file[e], U64(file, e + 8);
    }

    /** node_lookup_f(): bsearch() over the child entries. */
    method NodeLookup(node: nat, c: Char, ghost t: Tree) returns (found: bool, child: nat)
      requires IsNode(node, t)
      ensures found <==> KidIndex(t.kids, c) < |t.kids|
      ensures found ==> IsNode(child, t.kids[KidIndex(t.kids, c)].tree)
    {
      var first := 0;
      var last := ChildrenCount(node, t);
      while first < last
        invariant 0 <= first <= last <= |t.kids|
        invariant forall i :: 0 <= i < first ==> t.kids[i].c < c
        invariant forall i :: last <= i < |t.kids| ==> c < t.kids[i].c
      {
        var middle := (first + last) / 2;
        var d, off := ChildAt(node, middle, t);
        LabelsInOrder(node, t, middle);
        if c < d {
          last := middle;
        } else if d < c {
          first := middle + 1;
        } else {
          return true, off;
        }
      }
      return false, 0;
    }

    lemma LabelsInOrder(node: nat, t: Tree, k: nat)
      requires IsNode(node, t) && k < |t.kids|
      ensures forall i :: 0 <= i < k ==> t.kids[i].c < t.kids[k].c
      ensures forall i :: k < i < |t.kids| ==> t.kids[k].c < t.kids[i].c
      ensures KidIndex(t.kids, t.kids[k].c) == k
    {
      assert Record(node, t);
      KidIndexUnique(t, k);
    }

    /** hwdb_add_property() */
    method AddProperty(key: CStr, value: CStr)
      requires Valid()
      modifies properties
      ensures Valid() && properties.contents == AfterHit(old(properties.contents), key, value)
    {
      if CStrings.At(key, 0) != SPACE {
        return;
      }
      var _ := properties.Add(key[1..], UdevLists.Str(value));
    }

    /** trie_node_values() */
    method NodeValues(node: nat, ghost t: Tree) returns (values: nat)
      requires IsNode(node, t)
      ensures values == ValueEntryOff(node, |t.kids|, 0)
    {
      assert Record(node, t);
      values := node + NodeSizeField(file) + file[node + 8] * ChildEntrySizeField(file);
    }

    /** The i-th value entry of a node. */
    method ValueAt(values: nat, i: nat, ghost node: nat, ghost t: Tree) returns (key: CStr, value: CStr)
      requires IsNode(node, t) && i < |t.pairs| && values == ValueEntryOff(node, |t.kids|, 0)
      ensures key == t.pairs[i].0 && value == t.pairs[i].1
    {
      assert Record(node, t);
      assert values + 16 * i == ValueEntryOff(node, |t.kids|, i);
      key := String(values + 16 * i, t.pairs[i].0);
      value := String(values + 16 * i + 8, t.pairs[i].1);
    }

    /** How many values a node has. */
    method ValuesCount(node: nat, ghost t: Tree) returns (count: nat)
      requires IsNode(node, t)
      ensures count == |t.pairs|
    {
      assert Record(node, t);
      count := U64(file, node + 16);
    }

    /** Its prefix; the offset is 0 if there is none. */
    method Prefix(node: nat, ghost t: Tree) returns (off: nat, prefix: CStr)
      requires IsNode(node, t)
      ensures prefix == t.prefix && (off == 0 ==> prefix == [])
    {
      assert Record(node, t);
      off := U64(file, node);
      prefix := String(node, t.prefix);
    }

    /** The i-th value of a node, after those before it. */
    method AddValue(values: nat, i: nat, ghost node: nat, ghost t: Tree, ghost pattern: CStr, ghost found: Properties)
      requires Valid() && IsNode(node, t) && i < |t.pairs| && values == ValueEntryOff(node, |t.kids|, 0)
      requires AfterPairs(properties.contents, found, pattern, t.pairs, i)
      modifies properties
      ensures Valid() && AfterPairs(properties.contents, found, pattern, t.pairs, i + 1)
    {
      AfterOnePair(properties.contents, found, pattern, t.pairs, i);
      var key, value := ValueAt(values, i, node, t);
      AddProperty(key, value);
    }

    /** All values of a node. */
    method AddProperties(node: nat, ghost t: Tree, ghost pattern: CStr)
      requires Valid() && IsNode(node, t)
      modifies properties
      ensures Valid()
      ensures properties.contents == AfterHits(old(properties.contents), PairHits(pattern, t.pairs, |t.pairs|))
    {
      ghost var found := properties.contents;
      var values := NodeValues(node, t);
      var count := ValuesCount(node, t);
      AfterNoPair(found, pattern, t.pairs);
      var i := 0;
      while i < count
        invariant i <= count
        invariant Valid() && AfterPairs(properties.contents, found, pattern, t.pairs, i)
      {
        AddValue(values, i, node, t, pattern, found);
        i := i + 1;
      }
    }

    /** One child of trie_fnmatch_f()'s loop. */
    method FnmatchKid(node: nat, i: nat, buf: Linebuf, search: CStr, ghost t: Tree, ghost base: CStr, ghost line: CStr)
      requires Valid() && IsNode(node, t) && i < |t.kids| && buf.Holds(line)
      requires |line| + 1 < LINE_MAX && Fits(t.kids[i].tree, |line| + 1)
      modifies buf, buf.bytes, properties
      ensures Valid() && buf.Holds(line)
      ensures properties.contents == AfterHits(old(properties.contents),
                Subtree(t.kids[i].tree, 0, base, Snoc(line, t.kids[i].c), search, fnm))
      decreases t, 0
    {
      ghost var kid, line' := t.kids[i].tree, Snoc(line, t.kids[i].c);
      var c, child := ChildAt(node, i, t);
      var _ := buf.AddChar(c, line);
      Fnmatch(child, 0, buf, search, kid, base, line');
      LineLeft(line, [c]);
      buf.Rem(1, line');
    }

    /** The loop of trie_fnmatch_f() over the children. */
    method FnmatchKids(node: nat, buf: Linebuf, search: CStr, ghost t: Tree, ghost base: CStr, ghost line: CStr)
      requires Valid() && IsNode(node, t) && buf.Holds(line)
      requires |line| + 1 < LINE_MAX && forall i :: 0 <= i < |t.kids| ==> Fits(t.kids[i].tree, |line| + 1)
      modifies buf, buf.bytes, properties
      ensures Valid() && buf.Holds(line)
      ensures properties.contents == AfterHits(old(properties.contents), Kids(t, 0, base, line, search, fnm))
      decreases t, 1
    {
      ghost var result := AfterHits(properties.contents, Kids(t, 0, base, line, search, fnm));
      var i := 0;
      var count := ChildrenCount(node, t);
      while i < count
        invariant i <= count && Valid() && buf.Holds(line)
        invariant KidsLeft(properties.contents, result, t, i, base, line, search, fnm)
      {
        ghost var found := properties.contents;
        FnmatchKid(node, i, buf, search, t, base, line);
        KidsNext(found, properties.contents, result, t, i, base, line, search, fnm);
        i := i + 1;
      }
      KidsDone(properties.contents, result, t, base, line, search, fnm);
    }

    /** The node's own values, when the line passes. */
    method FnmatchOwn(node: nat, buf: Linebuf, search: CStr, ghost t: Tree, ghost base: CStr, ghost line: CStr)
      requires Valid() && IsNode(node, t) && buf.Holds(line) && |line| + 1 < LINE_MAX
      modifies buf, buf.bytes, properties
      ensures Valid() && buf.Holds(line)
      ensures properties.contents == AfterHits(old(properties.contents), Own(t, base, line, search, fnm))
    {
      var count := ValuesCount(node, t);
      if count != 0 {
        var ok, s := buf.Get(line);
        if fnm(s, search) {
          AddProperties(node, t, base + line);
        }
      }
    }

    /** A node's children and its own values, with its line in the buffer. */
    method FnmatchLine(node: nat, buf: Linebuf, search: CStr, ghost t: Tree, ghost base: CStr, ghost line: CStr)
      requires Valid() && IsNode(node, t) && buf.Holds(line)
      requires |line| + 1 < LINE_MAX && forall i :: 0 <= i < |t.kids| ==> Fits(t.kids[i].tree, |line| + 1)
      modifies buf, buf.bytes, properties
      ensures Valid() && buf.Holds(line)
      ensures properties.contents ==
              AfterHits(AfterHits(old(properties.contents), Kids(t, 0, base, line, search, fnm)),
                        Own(t, base, line, search, fnm))
      decreases t, 2
    {
      FnmatchKids(node, buf, search, t, base, line);
      FnmatchOwn(node, buf, search, t, base, line);
    }

    /** trie_fnmatch_f(): the line is as found when it returns. */
    method Fnmatch(node: nat, p: nat, buf: Linebuf, search: CStr, ghost t: Tree, ghost base: CStr, ghost acc: CStr)
      requires Valid() && IsNode(node, t) && p <= |t.prefix|
      requires buf.Holds(acc) && Fits(t, |acc| - p)
      modifies buf, buf.bytes, properties
      ensures Valid() && buf.Holds(acc)
      ensures properties.contents == AfterHits(old(properties.contents), Subtree(t, p, base, acc, search, fnm))
      decreases t, 3
    {
      var _, prefix := Prefix(node, t);
      var rest := prefix[p..];
      ghost var line := acc + rest;
      AfterSubtree(properties.contents, t, p, base, acc, search, fnm, line);
      FitsBelow(t, |acc| - p, line);
      var _ := buf.Add(rest, acc);
      FnmatchLine(node, buf, search, t, base, line);
      LineLeft(acc, rest);
      buf.Rem(|rest|, line);
    }

    lemma LineLeft(acc: CStr, rest: CStr)
      ensures (acc + rest)[..|acc + rest| - |rest|] == acc
    {
    }

    /** A whole subtree, entered with one character in the line. */
    method EnterKid(child: nat, c: Char, buf: Linebuf, rest: CStr, ghost kid: Tree, ghost base: CStr)
      requires Valid() && IsNode(child, kid) && buf.Holds([]) && Fits(kid, 1)
      modifies buf, buf.bytes, properties
      ensures Valid() && buf.Holds([])
      ensures properties.contents == AfterHits(old(properties.contents), Subtree(kid, 0, base, [c], rest, fnm))
    {
      ghost var line: CStr := [c];
      OneChar(c);
      var _ := buf.AddChar(c, []);
      Fnmatch(child, 0, buf, rest, kid, base, line);
      buf.Rem(1, line);
    }

    /** A child entered by a special character. */
    method GlobChild(node: nat, c: Char, buf: Linebuf, search: CStr, i: nat, ghost t: Tree)
      requires Valid() && IsNode(node, t) && buf.Holds([]) && i <= |search|
      requires forall k :: 0 <= k < |t.kids| ==> Fits(t.kids[k].tree, 1)
      modifies buf, buf.bytes, properties
      ensures Valid() && buf.Holds([])
      ensures properties.contents == AfterHits(old(properties.contents), GlobKid(t, c, search, i, fnm))
    {
      var found, child := NodeLookup(node, c, t);
      if found {
        EnterKid(child, c, buf, search[i..], t.kids[KidIndex(t.kids, c)].tree, search[..i]);
      }
    }

    /** The scan of a node's prefix: how far it is literal and repeats the search string, and what comes then. */
    method ScanPrefix(node: nat, search: CStr, i: nat, ghost t: Tree) returns (p: nat, c: Byte)
      requires IsNode(node, t) && i <= |search|
      ensures p == Pass(t.prefix, search, i, signed)
      ensures c == CStrings.At(t.prefix, p)
    {
      p, c := 0, NUL;
      var off, prefix := Prefix(node, t);
      if off != 0 {
        c := CStrings.At(prefix, p);
        while c != NUL && !IsGlob(c) && SameChar(c, CStrings.At(search, i + p), signed)
          invariant p <= |prefix| && i + p <= |search| && c == CStrings.At(prefix, p)
          invariant Pass(t.prefix, search, i, signed) == PassFrom(t.prefix, p, search, i, signed)
          decreases |prefix| - p
        {
          p := p + 1;
          c := CStrings.At(prefix, p);
        }
      }
    }

    /** The children entered by special characters. */
    method GlobChildren(node: nat, buf: Linebuf, search: CStr, i: nat, ghost t: Tree)
      requires Valid() && IsNode(node, t) && buf.Holds([]) && i <= |search|
      requires forall k :: 0 <= k < |t.kids| ==> Fits(t.kids[k].tree, 1)
      modifies buf, buf.bytes, properties
      ensures Valid() && buf.Holds([])
      ensures properties.contents == AfterHits(old(properties.contents), GlobKids(t, search, i, fnm))
    {
      ghost var stars, questions := GlobKid(t, STAR, search, i, fnm), GlobKid(t, QUESTION, search, i, fnm);
      AfterMoreHits(properties.contents, stars, questions);
      AfterMoreHits(properties.contents, stars + questions, GlobKid(t, BRACKET, search, i, fnm));
      GlobChild(node, STAR, buf, search, i, t);
      GlobChild(node, QUESTION, buf, search, i, t);
      GlobChild(node, BRACKET, buf, search, i, t);
    }

    /** A node whose prefix holds a special character, or differs from the search string. */
    method InPrefix(node: nat, p: nat, c: Byte, buf: Linebuf, search: CStr, j: nat, ghost t: Tree, ghost hits: seq<Hit>)
      requires Valid() && IsNode(node, t) && Fits(t, 0) && buf.Holds([]) && j <= |search|
      requires p < |t.prefix| && c == t.prefix[p]
      requires hits == if IsGlob(c) then Subtree(t, p, search[..j], [], search[j..], fnm) else []
      modifies buf, buf.bytes, properties
      ensures Valid()
      ensures properties.contents == AfterHits(old(properties.contents), hits)
    {
      if IsGlob(c) {
        FitsShorter(t, 0, 0 - p);
        Fnmatch(node, p, buf, search[j..], t, search[..j], []);
      }
    }

    /** The pass ended inside the prefix: nothing is left to find below. */
    method StopInside(node: nat, p: nat, c: Byte, buf: Linebuf, search: CStr, i: nat, ghost t: Tree, ghost find: Finder)
      requires Valid() && IsNode(node, t) && Fits(t, 0) && buf.Holds([]) && i <= |search|
      requires Finds(find, search, fnm, signed)
      requires p == Pass(t.prefix, search, i, signed) < |t.prefix| && c == t.prefix[p]
      modifies buf, buf.bytes, properties
      ensures Valid()
      ensures properties.contents == AfterHits(old(properties.contents), find(t, i))
    {
      FoundInside(find, t, search, i, fnm, signed);
      InPrefix(node, p, c, buf, search, i + p, t, find(t, i));
    }

    /** Past a node's prefix: its children by special characters, its values at the end, else the next child. */
    method PastPrefix(node: nat, buf: Linebuf, search: CStr, i: nat, ghost t: Tree, ghost before: nat,
                      ghost find: Finder)
      returns (more: bool, child: nat, ghost kid: Tree)
      requires Valid() && IsNode(node, t) && Fits(t, 0) && buf.Holds([]) && before <= |search| &&
               Finds(find, search, fnm, signed)
      requires Pass(t.prefix, search, before, signed) == |t.prefix| == i - before
      modifies buf, buf.bytes, properties
      ensures Valid() && buf.Holds([])
      ensures more ==> i < |search| && IsNode(child, kid) && Fits(kid, 0)
      ensures AfterHits(old(properties.contents), find(t, before)) ==
              if more then AfterHits(properties.contents, find(kid, i + 1)) else properties.contents
    {
      kid := t;
      FoundPast(find, t, search, before, i, fnm, signed);
      AfterMoreHits(properties.contents, GlobKids(t, search, i, fnm), OnwardIn(t, search, i, fnm, signed));
      FoundOnward(find, t, search, i, fnm, signed);
      forall k | 0 <= k < |t.kids|
        ensures Fits(t.kids[k].tree, 1)
      {
        FitsShorter(t.kids[k].tree, |t.prefix| + 1, 1);
      }
      GlobChildren(node, buf, search, i, t);
      if CStrings.At(search, i) == NUL {
        AddProperties(node, t, search);
        return false, 0, t;
      }
      more, child := NodeLookup(node, search[i], t);
      if more {
        kid := t.kids[KidIndex(t.kids, search[i])].tree;
        FitsShorter(kid, 1, 0);
      }
    }

    /** One turn of trie_search_f()'s loop: what is left to find is below the child. */
    method SearchNode(node: nat, buf: Linebuf, search: CStr, i: nat, ghost t: Tree, ghost find: Finder)
      returns (more: bool, child: nat, next: nat, ghost kid: Tree)
      requires Valid() && IsNode(node, t) && Fits(t, 0) && buf.Holds([]) && i <= |search|
      requires Finds(find, search, fnm, signed)
      modifies buf, buf.bytes, properties
      ensures Valid()
      ensures more ==> buf.Holds([]) && i < next <= |search| && IsNode(child, kid) && Fits(kid, 0)
      ensures AfterHits(old(properties.contents), find(t, i)) ==
              if more then AfterHits(properties.contents, find(kid, next)) else properties.contents
    {
      var p, c := ScanPrefix(node, search, i, t);
      if c != NUL {
        StopInside(node, p, c, buf, search, i, t, find);
        return false, 0, i, t;
      }
      next := i + p + 1;
      more, child, kid := PastPrefix(node, buf, search, i + p, t, i, find);
    }

    /** trie_search_f(): the traversal finds what SearchIn() says, and nothing else. */
    method TrieSearch(search: CStr, ghost tree: Tree)
      requires Valid() && Readable(tree)
      modifies properties
      ensures Valid()
      ensures properties.contents == AfterHits(old(properties.contents), SearchIn(tree, search, 0, fnm, signed))
    {
      ghost var find := Searching(search, fnm, signed);
      ghost var t, result := tree, AfterHits(properties.contents, SearchIn(tree, search, 0, fnm, signed));
      var buf := new Linebuf();
      assert Record(RootOffField(file), tree);
      var node, i, more := RootOffField(file), 0, true;
      while more
        invariant more ==> i <= |search| && buf.Holds([]) && IsNode(node, t) && Fits(t, 0)
        invariant Valid() && fresh(buf) && fresh(buf.bytes)
        invariant result == if more then AfterHits(properties.contents, find(t, i)) else properties.contents
        decreases more, |search| - i
      {
        more, node, i, t := SearchNode(node, buf, search, i, t, find);
      }
    }

    /** udev_hwdb_get_properties_list_entry(): the first property, or none. */
    method GetProperties(modalias: CStr, ghost tree: Tree) returns (first: Ptr)
      requires Valid() && Readable(tree)
      modifies properties
      ensures Valid()
      ensures properties.contents == AfterHits(map[], SearchIn(tree, modalias, 0, fnm, signed))
      ensures first == UdevLists.EntryAt(properties.ring, 0)
    {
      properties.Cleanup();
      TrieSearch(modalias, tree);
      first := properties.GetEntry();
    }
  }
}
