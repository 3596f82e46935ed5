/**
  The layout of hwdb.bin (lib/libudev-hwdb-def.h): little-endian records, a node
  followed by its child entries and its value entries, offsets from the start of
  the file.  The header takes 80 bytes, a node 24, an entry of either array 16.
  */
module HwdbFile {
  import opened CStrings
  import opened ChildArrays
  import opened HwdbTrie
  import opened PatternTree

  const HEADER_SIZE: nat := 80
  const TWO64: nat := 0x1_0000_0000_0000_0000

  // ---- little-endian numbers ----

  /** The lowest k bytes of n, htole64() for k == 8. */
  function Le(n: nat, k: nat): (b: seq<Byte>)
    ensures |b| == k
  {
    if k == 0 then [] else [n % 256] + Le(n / 256, k - 1)
  }

  /** The number that the last k bytes stand for, le64toh() for all 8. */
  function FromLe(b: seq<Byte>, k: nat): nat
    requires k <= |b|
  {
    if k == 0 then 0 else b[|b| - k] + 256 * FromLe(b, k - 1)
  }

  function Pow256(k: nat): (p: nat)
    ensures p > 0
  {
    if k == 0 then 1 else 256 * Pow256(k - 1)
  }

  lemma {:induction false} LeRoundTrip(n: nat, k: nat)
    requires n < Pow256(k)
    ensures FromLe(Le(n, k), k) == n
    decreases k
  {
    if k > 0 {
      LeRoundTrip(n / 256, k - 1);
      FromLeBehind([n % 256], Le(n / 256, k - 1), k - 1);
    }
  }

  lemma {:induction false} FromLeBehind(a: seq<Byte>, b: seq<Byte>, k: nat)
    requires k <= |b|
    ensures FromLe(a + b, k) == FromLe(b, k)
    decreases k
  {
    if k > 0 {
      FromLeBehind(a, b, k - 1);
    }
  }

  lemma Pow256Of8()
    ensures Pow256(8) == TWO64
  {
    assert Pow256(2) == 0x1_0000;
    assert Pow256(4) == 0x1_0000 * 0x1_0000;
    assert Pow256(6) == 0x1_0000 * 0x1_0000 * 0x1_0000;
  }

  function FromLeAll(b: seq<Byte>): nat {
    FromLe(b, |b|)
  }

  function U64(file: seq<Byte>, off: nat): nat
    requires off + 8 <= |file|
  {
    FromLeAll(file[off..off + 8])
  }

  /** The lowest byte comes first. */
  lemma U64Bytes(file: seq<Byte>, off: nat)
    requires off + 8 <= |file|
    ensures var b: seq<int> := file[off..off + 8];
            U64(file, off) ==
            b[0] + 0x100 * b[1] + 0x1_0000 * b[2] + 0x100_0000 * b[3] + 0x1_0000_0000 * b[4]
            + 0x100_0000_0000 * b[5] + 0x1_0000_0000_0000 * b[6] + 0x100_0000_0000_0000 * b[7]
  {
    var b := file[off..off + 8];
    var c: seq<int> := b;
    assert FromLe(b, 1) == c[7];
    assert FromLe(b, 2) == c[6] + 0x100 * c[7];
    assert FromLe(b, 4) == c[4] + 0x100 * (c[5] + 0x100 * FromLe(b, 2));
    assert FromLe(b, 6) == c[2] + 0x100 * (c[3] + 0x100 * FromLe(b, 4));
    assert FromLe(b, 8) == c[0] + 0x100 * (c[1] + 0x100 * FromLe(b, 6));
  }

  lemma U64OfLe(n: nat)
    requires n < TWO64
    ensures FromLeAll(Le(n, 8)) == n
  {
    Pow256Of8();
    LeRoundTrip(n, 8);
  }

  lemma SubSlice(s: seq<Byte>, a: nat, b: nat, from: nat, to: nat)
    requires a <= from <= to <= b <= |s|
    ensures s[from..to] == s[a..b][from - a..to - a]
  {
    forall i | 0 <= i < to - from
      ensures s[from..to][i] == s[a..b][from - a..to - a][i]
    {
      assert s[a..b][from - a + i] == s[from + i];
    }
  }

  /** A number, or a byte, of a record that is somewhere in the file. */
  lemma FieldOfRecord(file: seq<Byte>, off: nat, record: seq<Byte>, k: nat)
    requires off + |record| <= |file| && file[off..off + |record|] == record
    ensures k < |record| ==> file[off + k] == record[k]
    ensures k + 8 <= |record| ==> U64(file, off + k) == U64(record, k)
  {
    if k + 8 <= |record| {
      SubSlice(file, off, off + |record|, off + k, off + k + 8);
      assert file[off + k..off + k + 8] == record[k..k + 8];
    }
    assert k < |record| ==> file[off + k] == file[off..off + |record|][k];
  }

  lemma MiddlePiece(a: seq<Byte>, b: seq<Byte>, c: seq<Byte>)
    ensures (a + b + c)[|a|..|a| + |b|] == b
  {
  }

  // ---- records ----

  function NodeRecord(prefixOff: nat, childrenCount: Byte, valuesCount: nat): (b: seq<Byte>)
    ensures |b| == 24
  {
    Le(prefixOff, 8) + ([childrenCount] + Padding()) + Le(valuesCount, 8)
  }

  /** uint8_t padding[7] */
  function Padding(): (b: seq<Byte>)
    ensures |b| == 7
  {
    [0, 0, 0, 0, 0, 0, 0]
  }

  function ChildRecord(c: Char, childOff: nat): (b: seq<Byte>)
    ensures |b| == 16
  {
    ([c] + Padding()) + Le(childOff, 8)
  }

  function ValueRecord(keyOff: nat, valueOff: nat): (b: seq<Byte>)
    ensures |b| == 16
  {
    Le(keyOff, 8) + Le(valueOff, 8)
  }

  lemma NodeRecordFields(prefixOff: nat, childrenCount: Byte, valuesCount: nat)
    requires prefixOff < TWO64 && valuesCount < TWO64
    ensures var b := NodeRecord(prefixOff, childrenCount, valuesCount);
            && U64(b, 0) == prefixOff && b[8] == childrenCount && U64(b, 16) == valuesCount
            && b[9..16] == [0, 0, 0, 0, 0, 0, 0]
  {
    var b1, b2, b3 := Le(prefixOff, 8), [childrenCount] + Padding(), Le(valuesCount, 8);
    U64OfLe(prefixOff);
    U64OfLe(valuesCount);
    assert (b1 + b2 + b3)[0..8] == b1;
    assert (b1 + b2 + b3)[16..24] == b3;
    assert (b1 + b2 + b3)[8] == b2[0];
    assert (b1 + b2 + b3)[9..16] == b2[1..];
  }

  lemma ChildRecordFields(c: Char, childOff: nat)
    requires childOff < TWO64
    ensures ChildRecord(c, childOff)[0] == c && U64(ChildRecord(c, childOff), 8) == childOff
    ensures ChildRecord(c, childOff)[1..8] == [0, 0, 0, 0, 0, 0, 0]
  {
    var b1, b2 := [c] + Padding(), Le(childOff, 8);
    U64OfLe(childOff);
    assert (b1 + b2)[8..16] == b2;
    assert (b1 + b2)[0] == b1[0];
    assert (b1 + b2)[1..8] == b1[1..];
  }

  lemma ValueRecordFields(keyOff: nat, valueOff: nat)
    requires keyOff < TWO64 && valueOff < TWO64
    ensures U64(ValueRecord(keyOff, valueOff), 0) == keyOff && U64(ValueRecord(keyOff, valueOff), 8) == valueOff
  {
    var b1, b2 := Le(keyOff, 8), Le(valueOff, 8);
    U64OfLe(keyOff);
    U64OfLe(valueOff);
    assert (b1 + b2)[0..8] == b1;
    assert (b1 + b2)[8..16] == b2;
  }

  /** The first n entries of a child array. */
  function ChildRecords(children: seq<ChildEntry>, offs: seq<nat>, n: nat): (b: seq<Byte>)
    requires n <= |children| && |children| == |offs|
    ensures |b| == 16 * n
  {
    if n == 0 then [] else ChildRecords(children, offs, n - 1) + ChildRecord(children[n - 1].c, offs[n - 1])
  }

  /** The first n entries of a value array. */
  function ValueRecords(values: seq<ValueEntry>, stringsOff: nat, n: nat): (b: seq<Byte>)
    requires n <= |values|
    ensures |b| == 16 * n
  {
    if n == 0 then []
    else ValueRecords(values, stringsOff, n - 1)
         + ValueRecord(stringsOff + values[n - 1].keyOff, stringsOff + values[n - 1].valueOff)
  }

  function NodeBytes(n: TrieNode, offs: seq<nat>, stringsOff: nat): (b: seq<Byte>)
    requires |n.children| == |offs| <= 255
    ensures |b| == 24 + 16 * |n.children| + 16 * |n.values|
  {
    NodeRecord(stringsOff + n.prefixOff, |n.children|, |n.values|)
    + ChildRecords(n.children, offs, |n.children|)
    + ValueRecords(n.values, stringsOff, |n.values|)
  }

  lemma {:induction false} ChildRecordAt(children: seq<ChildEntry>, offs: seq<nat>, n: nat, i: nat)
    requires i < n <= |children| && |children| == |offs|
    ensures ChildRecords(children, offs, n)[16 * i..16 * i + 16] ==
            ChildRecord(children[i].c, offs[i])
    decreases n
  {
    if i < n - 1 {
      ChildRecordAt(children, offs, n - 1, i);
    }
  }

  lemma {:induction false} ValueRecordAt(values: seq<ValueEntry>, stringsOff: nat, n: nat, i: nat)
    requires i < n <= |values|
    ensures ValueRecords(values, stringsOff, n)[16 * i..16 * i + 16] ==
            ValueRecord(stringsOff + values[i].keyOff, stringsOff + values[i].valueOff)
    decreases n
  {
    if i < n - 1 {
      ValueRecordAt(values, stringsOff, n - 1, i);
    }
  }

  // ---- where a reader finds things ----

  function ChildEntryOff(off: nat, i: nat): nat {
    off + 24 + 16 * i
  }

  function ValueEntryOff(off: nat, kids: nat, i: nat): nat {
    off + 24 + 16 * kids + 16 * i
  }

  function RecordSize(t: Tree): nat {
    24 + 16 * |t.kids| + 16 * |t.pairs|
  }

  /** The string whose offset, never 0, is stored at `at`; strings start at stringsOff. */
  predicate StringAt(file: seq<Byte>, strings: seq<Byte>, stringsOff: nat, at: nat, s: CStr)
    requires at + 8 <= |file|
  {
    0 < U64(file, at) && stringsOff <= U64(file, at) && HoldsAt(strings, U64(file, at) - stringsOff, s)
  }

  /** The value entries of a record lead to its strings. */
  ghost predicate PairsStored(file: seq<Byte>, strings: seq<Byte>, stringsOff: nat, off: nat, t: Tree)
    requires off + RecordSize(t) <= |file|
  {
    forall i :: 0 <= i < |t.pairs| ==>
      && StringAt(file, strings, stringsOff, ValueEntryOff(off, |t.kids|, i), t.pairs[i].0)
      && StringAt(file, strings, stringsOff, ValueEntryOff(off, |t.kids|, i) + 8, t.pairs[i].1)
  }

  /**
    The node record at off and those below it spell out the tree; every child lies
    before its parent, so a reader that follows offsets comes to an end.
    */
  ghost predicate Stored(file: seq<Byte>, strings: seq<Byte>, stringsOff: nat, off: nat, t: Tree)
    decreases t
  {
    && HEADER_SIZE <= off && off + RecordSize(t) <= |file|
    && StringAt(file, strings, stringsOff, off, t.prefix)
    && file[off + 8] == |t.kids|
    && U64(file, off + 16) == |t.pairs|
    && (forall i :: 0 <= i < |t.kids| ==>
          && file[ChildEntryOff(off, i)] == t.kids[i].c
          && U64(file, ChildEntryOff(off, i) + 8) < off
          && Stored(file, strings, stringsOff, U64(file, ChildEntryOff(off, i) + 8), t.kids[i].tree))
    && PairsStored(file, strings, stringsOff, off, t)
  }

  /** file' has what file has behind the header, and perhaps more. */
  ghost predicate Extends(file: seq<Byte>, file': seq<Byte>) {
    HEADER_SIZE <= |file| <= |file'| && file'[HEADER_SIZE..|file|] == file[HEADER_SIZE..]
  }

  lemma BytesExtend(file: seq<Byte>, file': seq<Byte>, from: nat, to: nat)
    requires Extends(file, file') && HEADER_SIZE <= from <= to <= |file|
    ensures file'[from..to] == file[from..to]
    ensures from < to ==> from < |file'| && file'[from] == file[from]
  {
    var h := HEADER_SIZE;
    SubSlice(file', h, |file|, from, to);
    SubSlice(file, h, |file|, from, to);
    assert file[h..] == file[h..|file|];
    if from < to {
      assert file'[from] == file'[from..to][0];
      assert file[from] == file[from..to][0];
    }
  }

  lemma NumberExtends(file: seq<Byte>, file': seq<Byte>, at: nat)
    requires Extends(file, file') && HEADER_SIZE <= at && at + 8 <= |file|
    ensures U64(file', at) == U64(file, at)
  {
    BytesExtend(file, file', at, at + 8);
  }

  /** A stored tree stays stored as the file grows behind it, and when the header is written. */
  lemma PairsExtend(file: seq<Byte>, file': seq<Byte>, strings: seq<Byte>, stringsOff: nat, off: nat, t: Tree)
    requires Extends(file, file') && HEADER_SIZE <= off && off + RecordSize(t) <= |file|
    requires PairsStored(file, strings, stringsOff, off, t)
    ensures PairsStored(file', strings, stringsOff, off, t)
  {
    forall i | 0 <= i < |t.pairs|
      ensures StringAt(file', strings, stringsOff, ValueEntryOff(off, |t.kids|, i), t.pairs[i].0)
      ensures StringAt(file', strings, stringsOff, ValueEntryOff(off, |t.kids|, i) + 8, t.pairs[i].1)
    {
      NumberExtends(file, file', ValueEntryOff(off, |t.kids|, i));
      NumberExtends(file, file', ValueEntryOff(off, |t.kids|, i) + 8);
    }
  }

  lemma {:induction false} StoredExtend(file: seq<Byte>, file': seq<Byte>, strings: seq<Byte>, stringsOff: nat,
                                        off: nat, t: Tree)
    requires Extends(file, file') && Stored(file, strings, stringsOff, off, t)
    ensures Stored(file', strings, stringsOff, off, t)
    decreases t
  {
    NumberExtends(file, file', off);
    BytesExtend(file, file', off + 8, off + 9);
    NumberExtends(file, file', off + 16);
    forall i | 0 <= i < |t.kids|
      ensures file'[ChildEntryOff(off, i)] == t.kids[i].c
      ensures U64(file', ChildEntryOff(off, i) + 8) == U64(file, ChildEntryOff(off, i) + 8)
      ensures Stored(file', strings, stringsOff, U64(file, ChildEntryOff(off, i) + 8), t.kids[i].tree)
    {
      var e := ChildEntryOff(off, i);
      BytesExtend(file, file', e, e + 1);
      NumberExtends(file, file', e + 8);
      StoredExtend(file, file', strings, stringsOff, U64(file, e + 8), t.kids[i].tree);
    }
    PairsExtend(file, file', strings, stringsOff, off, t);
  }

  /** Once the string buffer is in the file, at stringsOff, the file's own bytes hold the strings. */
  lemma HeldInFile(file: seq<Byte>, strings: seq<Byte>, stringsOff: nat, off: int, s: CStr)
    requires HoldsAt(strings, off, s)
    requires stringsOff + |strings| == |file| && file[stringsOff..] == strings
    ensures HoldsAt(file, stringsOff + off, s)
  {
    HoldsBytes(strings, off, s);
    HoldsBytes(file, stringsOff + off, s);
    assert file[stringsOff + off..stringsOff + off + |s|] == file[stringsOff..][off..off + |s|];
    assert file[stringsOff + off + |s|] == file[stringsOff..][off + |s|];
  }

  lemma PairsInFile(file: seq<Byte>, strings: seq<Byte>, stringsOff: nat, off: nat, t: Tree)
    requires off + RecordSize(t) <= |file| && PairsStored(file, strings, stringsOff, off, t)
    requires stringsOff + |strings| == |file| && file[stringsOff..] == strings
    ensures PairsStored(file, file, 0, off, t)
  {
    forall i | 0 <= i < |t.pairs|
      ensures StringAt(file, file, 0, ValueEntryOff(off, |t.kids|, i), t.pairs[i].0)
      ensures StringAt(file, file, 0, ValueEntryOff(off, |t.kids|, i) + 8, t.pairs[i].1)
    {
      var e := ValueEntryOff(off, |t.kids|, i);
      HeldInFile(file, strings, stringsOff, U64(file, e) - stringsOff, t.pairs[i].0);
      HeldInFile(file, strings, stringsOff, U64(file, e + 8) - stringsOff, t.pairs[i].1);
    }
  }

  lemma {:induction false} StoredInFile(file: seq<Byte>, strings: seq<Byte>, stringsOff: nat, off: nat, t: Tree)
    requires Stored(file, strings, stringsOff, off, t)
    requires stringsOff + |strings| == |file| && file[stringsOff..] == strings
    ensures Stored(file, file, 0, off, t)
    decreases t
  {
    HeldInFile(file, strings, stringsOff, U64(file, off) - stringsOff, t.prefix);
    forall i | 0 <= i < |t.kids|
      ensures Stored(file, file, 0, U64(file, ChildEntryOff(off, i) + 8), t.kids[i].tree)
    {
      StoredInFile(file, strings, stringsOff, U64(file, ChildEntryOff(off, i) + 8), t.kids[i].tree);
    }
    PairsInFile(file, strings, stringsOff, off, t);
  }

  // ---- a node written behind its children ----

  /** What is written for the node is read back field by field. */
  lemma NodeFields(before: seq<Byte>, n: TrieNode, offs: seq<nat>, stringsOff: nat)
    requires |n.children| == |offs| <= 255
    requires stringsOff + n.prefixOff < TWO64 && |n.values| < TWO64
    ensures var file := before + NodeBytes(n, offs, stringsOff);
            && U64(file, |before|) == stringsOff + n.prefixOff
            && file[|before| + 8] == |n.children|
            && U64(file, |before| + 16) == |n.values|
  {
    var file := before + NodeBytes(n, offs, stringsOff);
    var record := NodeRecord(stringsOff + n.prefixOff, |n.children|, |n.values|);
    NodePieces(before, n, offs, stringsOff);
    NodeRecordFields(stringsOff + n.prefixOff, |n.children|, |n.values|);
    FieldOfRecord(file, |before|, record, 0);
    FieldOfRecord(file, |before|, record, 8);
    FieldOfRecord(file, |before|, record, 16);
  }

  /** Where the node's record and its two arrays are. */
  lemma NodePieces(before: seq<Byte>, n: TrieNode, offs: seq<nat>, stringsOff: nat)
    requires |n.children| == |offs| <= 255
    ensures var file := before + NodeBytes(n, offs, stringsOff);
            && file[|before|..|before| + 24] ==
               NodeRecord(stringsOff + n.prefixOff, |n.children|, |n.values|)
            && file[ChildEntryOff(|before|, 0)..ChildEntryOff(|before|, |offs|)] ==
               ChildRecords(n.children, offs, |n.children|)
            && file[ValueEntryOff(|before|, |offs|, 0)..ValueEntryOff(|before|, |offs|, |n.values|)] ==
               ValueRecords(n.values, stringsOff, |n.values|)
  {
    var node := NodeRecord(stringsOff + n.prefixOff, |n.children|, |n.values|);
    var kids := ChildRecords(n.children, offs, |n.children|);
    var values := ValueRecords(n.values, stringsOff, |n.values|);
    ThreePieces(before, node, kids, values);
  }

  lemma ThreePieces(before: seq<Byte>, a: seq<Byte>, b: seq<Byte>, c: seq<Byte>)
    ensures var file := before + (a + b + c);
            && file[|before|..|before| + |a|] == a
            && file[|before| + |a|..|before| + |a| + |b|] == b
            && file[|before| + |a| + |b|..|before| + |a| + |b| + |c|] == c
  {
    var file := before + (a + b + c);
    assert file == before + a + (b + c);
    MiddlePiece(before, a, b + c);
    assert file == (before + a) + b + c;
    MiddlePiece(before + a, b, c);
    assert file == (before + a + b) + c + [];
    MiddlePiece(before + a + b, c, []);
  }

  /** The i-th entry of the node's child array. */
  /** One entry of an array of entries. */
  lemma Inner(file: seq<Byte>, from: nat, to: nat, entries: seq<Byte>, k: nat, e: nat)
    requires from <= to <= |file| && file[from..to] == entries && k + 16 <= |entries| && e == from + k
    ensures file[e..e + 16] == entries[k..k + 16]
  {
    assert file[from..to][k..k + 16] == file[e..e + 16];
  }

  lemma ChildPiece(before: seq<Byte>, n: TrieNode, offs: seq<nat>, stringsOff: nat, i: nat)
    requires |n.children| == |offs| <= 255 && i < |offs|
    ensures var file, e := before + NodeBytes(n, offs, stringsOff), ChildEntryOff(|before|, i);
            file[e..e + 16] == ChildRecord(n.children[i].c, offs[i])
  {
    var file, e := before + NodeBytes(n, offs, stringsOff), ChildEntryOff(|before|, i);
    NodePieces(before, n, offs, stringsOff);
    ChildRecordAt(n.children, offs, |n.children|, i);
    Inner(file, ChildEntryOff(|before|, 0), ChildEntryOff(|before|, |offs|), ChildRecords(n.children, offs, |offs|),
          16 * i, e);
  }

  lemma ChildFields(before: seq<Byte>, n: TrieNode, offs: seq<nat>, stringsOff: nat, i: nat)
    requires |n.children| == |offs| <= 255 && i < |offs| && offs[i] < TWO64
    ensures var file := before + NodeBytes(n, offs, stringsOff);
            && file[ChildEntryOff(|before|, i)] == n.children[i].c
            && U64(file, ChildEntryOff(|before|, i) + 8) == offs[i]
  {
    var file, e := before + NodeBytes(n, offs, stringsOff), ChildEntryOff(|before|, i);
    var record := ChildRecord(n.children[i].c, offs[i]);
    ChildPiece(before, n, offs, stringsOff, i);
    ChildRecordFields(n.children[i].c, offs[i]);
    FieldOfRecord(file, e, record, 0);
    FieldOfRecord(file, e, record, 8);
  }

  /** The i-th entry of the node's value array. */
  lemma ValuePiece(before: seq<Byte>, n: TrieNode, offs: seq<nat>, stringsOff: nat, i: nat)
    requires |n.children| == |offs| <= 255 && i < |n.values|
    ensures var file, e := before + NodeBytes(n, offs, stringsOff), ValueEntryOff(|before|, |offs|, i);
            file[e..e + 16] == ValueRecord(stringsOff + n.values[i].keyOff, stringsOff + n.values[i].valueOff)
  {
    var file, e := before + NodeBytes(n, offs, stringsOff), ValueEntryOff(|before|, |offs|, i);
    NodePieces(before, n, offs, stringsOff);
    ValueRecordAt(n.values, stringsOff, |n.values|, i);
    Inner(file, ValueEntryOff(|before|, |offs|, 0), ValueEntryOff(|before|, |offs|, |n.values|),
          ValueRecords(n.values, stringsOff, |n.values|), 16 * i, e);
  }

  lemma ValueFields(before: seq<Byte>, n: TrieNode, offs: seq<nat>, stringsOff: nat, i: nat)
    requires |n.children| == |offs| <= 255 && i < |n.values|
    requires stringsOff + n.values[i].keyOff < TWO64 && stringsOff + n.values[i].valueOff < TWO64
    ensures var file := before + NodeBytes(n, offs, stringsOff);
            var e := ValueEntryOff(|before|, |offs|, i);
            && U64(file, e) == stringsOff + n.values[i].keyOff
            && U64(file, e + 8) == stringsOff + n.values[i].valueOff
  {
    var file, e := before + NodeBytes(n, offs, stringsOff), ValueEntryOff(|before|, |offs|, i);
    var k, v := stringsOff + n.values[i].keyOff, stringsOff + n.values[i].valueOff;
    ValuePiece(before, n, offs, stringsOff, i);
    ValueRecordFields(k, v);
    FieldOfRecord(file, e, ValueRecord(k, v), 0);
    FieldOfRecord(file, e, ValueRecord(k, v), 8);
  }

  // ---- the header ----

  /** HWDB_SIG */
  const SIGNATURE: seq<Byte> := [75, 83, 76, 80, 72, 72, 82, 72]

  /** The first n of these numbers. */
  function Numbers(fields: seq<nat>, n: nat): (b: seq<Byte>)
    requires n <= |fields|
    ensures |b| == 8 * n
  {
    if n == 0 then [] else Numbers(fields, n - 1) + Le(fields[n - 1], 8)
  }

  /** struct trie_header_f */
  function Header(toolVersion: nat, fileSize: nat, rootOff: nat, nodesLen: nat, stringsLen: nat): (b: seq<Byte>)
    ensures |b| == HEADER_SIZE
  {
    SIGNATURE + Numbers([toolVersion, fileSize, HEADER_SIZE, 24, 16, 16, rootOff, nodesLen, stringsLen], 9)
  }

  lemma {:induction false} NumberAt(fields: seq<nat>, n: nat, k: nat)
    requires k < n <= |fields|
    ensures Numbers(fields, n)[8 * k..8 * k + 8] == Le(fields[k], 8)
    decreases n
  {
    if k < n - 1 {
      NumberAt(fields, n - 1, k);
    }
  }

  // the numbers of the header, by position
  function FileSizeField(file: seq<Byte>): nat requires HEADER_SIZE <= |file| { U64(file, 16) }
  function NodeSizeField(file: seq<Byte>): nat requires HEADER_SIZE <= |file| { U64(file, 32) }
  function ChildEntrySizeField(file: seq<Byte>): nat requires HEADER_SIZE <= |file| { U64(file, 40) }
  function ValueEntrySizeField(file: seq<Byte>): nat requires HEADER_SIZE <= |file| { U64(file, 48) }
  function RootOffField(file: seq<Byte>): nat requires HEADER_SIZE <= |file| { U64(file, 56) }
  function NodesLenField(file: seq<Byte>): nat requires HEADER_SIZE <= |file| { U64(file, 64) }
  function StringsLenField(file: seq<Byte>): nat requires HEADER_SIZE <= |file| { U64(file, 72) }

  /** What udev_hwdb_new() demands of a file. */
  predicate Recognized(file: seq<Byte>) {
    HEADER_SIZE <= |file| && file[..8] == SIGNATURE && FileSizeField(file) == |file|
  }

  lemma HeaderNumber(signature: seq<Byte>, fields: seq<nat>, behind: seq<Byte>, k: nat)
    requires |signature| == 8 && k < |fields| && fields[k] < TWO64
    ensures U64(signature + Numbers(fields, |fields|) + behind, 8 + 8 * k) == fields[k]
  {
    var numbers := Numbers(fields, |fields|);
    var file := signature + numbers + behind;
    NumberAt(fields, |fields|, k);
    MiddlePiece(signature, numbers, behind);
    SubSlice(file, 8, 8 + |numbers|, 8 + 8 * k, 16 + 8 * k);
    U64OfLe(fields[k]);
  }

  /** The file begins with "KSLPHHRH", and its sizes are where a reader of this version looks for them. */
  ghost predicate HeaderWritten(file: seq<Byte>, toolVersion: nat, nodesLen: nat, stringsLen: nat) {
    && |file| == 80 + nodesLen + stringsLen
    && file[..8] == [75, 83, 76, 80, 72, 72, 82, 72]
    && U64(file, 8) == toolVersion && U64(file, 16) == |file| && U64(file, 24) == 80
    && U64(file, 32) == 24 && U64(file, 40) == 16 && U64(file, 48) == 16
    && U64(file, 64) == nodesLen && U64(file, 72) == stringsLen
  }

  /** A file with this header is recognized, and its fields are read as written. */
  lemma HeaderRead(toolVersion: nat, rootOff: nat, nodesLen: nat, stringsLen: nat, behind: seq<Byte>)
    requires toolVersion < TWO64 && rootOff < TWO64 && nodesLen < TWO64 && stringsLen < TWO64
    requires HEADER_SIZE + |behind| < TWO64
    ensures var file := Header(toolVersion, HEADER_SIZE + |behind|, rootOff, nodesLen, stringsLen) + behind;
            && Recognized(file)
            && NodeSizeField(file) == 24 && ChildEntrySizeField(file) == 16 && ValueEntrySizeField(file) == 16
            && RootOffField(file) == rootOff && NodesLenField(file) == nodesLen && StringsLenField(file) == stringsLen
            && (|behind| == nodesLen + stringsLen ==> HeaderWritten(file, toolVersion, nodesLen, stringsLen))
  {
    var fields := [toolVersion, HEADER_SIZE + |behind|, HEADER_SIZE, 24, 16, 16, rootOff, nodesLen, stringsLen];
    HeaderNumber(SIGNATURE, fields, behind, 0);
    HeaderNumber(SIGNATURE, fields, behind, 1);
    HeaderNumber(SIGNATURE, fields, behind, 2);
    HeaderNumber(SIGNATURE, fields, behind, 3);
    HeaderNumber(SIGNATURE, fields, behind, 4);
    HeaderNumber(SIGNATURE, fields, behind, 5);
    HeaderNumber(SIGNATURE, fields, behind, 6);
    HeaderNumber(SIGNATURE, fields, behind, 7);
    HeaderNumber(SIGNATURE, fields, behind, 8);
    StartsWith(SIGNATURE, Numbers(fields, 9), behind);
  }

  lemma StartsWith(a: seq<Byte>, b: seq<Byte>, c: seq<Byte>)
    ensures (a + b + c)[..|a|] == a
  {
  }

  lemma HeaderReplaced(nodes: seq<Byte>, strings: seq<Byte>, header: seq<Byte>)
    requires |header| == HEADER_SIZE <= |nodes|
    ensures var file := header + (nodes + strings)[HEADER_SIZE..];
            |file| == |nodes| + |strings| && file[HEADER_SIZE..|nodes|] == nodes[HEADER_SIZE..] &&
            file[|nodes|..] == strings
  {
    var rest := nodes[HEADER_SIZE..];
    assert (nodes + strings)[HEADER_SIZE..] == rest + strings;
    MiddlePiece(header, rest, strings);
    MiddlePiece(header + rest, strings, []);
    assert header + (rest + strings) == header + rest + strings == header + rest + strings + [];
  }

  /** The finished file: the header in place of the hole, the nodes as written, then the strings. */
  lemma FileFinished(nodes: seq<Byte>, strings: seq<Byte>, header: seq<Byte>, rootOff: nat, t: Tree)
    requires HEADER_SIZE <= |nodes| && |header| == HEADER_SIZE
    requires Stored(nodes, strings, |nodes|, rootOff, t)
    ensures var file := header + (nodes + strings)[HEADER_SIZE..];
            && |file| == |nodes| + |strings|
            && file[|nodes|..] == strings
            && Stored(file, file, 0, rootOff, t)
  {
    var file := header + (nodes + strings)[HEADER_SIZE..];
    HeaderReplaced(nodes, strings, header);
    StoredExtend(nodes, file, strings, |nodes|, rootOff, t);
    StoredInFile(file, strings, |nodes|, rootOff, t);
  }

  /** What a reader finds in a file whose nodes end at stringsOff. */
  ghost predicate FileWritten(file: seq<Byte>, strings: seq<Byte>, stringsOff: nat, t: Tree) {
    && Recognized(file)
    && NodeSizeField(file) == 24 && ChildEntrySizeField(file) == 16 && ValueEntrySizeField(file) == 16
    && HEADER_SIZE <= stringsOff && NodesLenField(file) == stringsOff - HEADER_SIZE
    && StringsLenField(file) == |strings| && |file| == stringsOff + |strings|
    && file[stringsOff..] == strings
    && Stored(file, file, 0, RootOffField(file), t)
  }

  lemma FileComplete(nodes: seq<Byte>, strings: seq<Byte>, toolVersion: nat, rootOff: nat, t: Tree, file: seq<Byte>)
    requires HEADER_SIZE <= |nodes| && |nodes| + |strings| < TWO64 && toolVersion < TWO64 && rootOff < |nodes|
    requires Stored(nodes, strings, |nodes|, rootOff, t)
    requires file == Header(toolVersion, |nodes| + |strings|, rootOff, |nodes| - HEADER_SIZE, |strings|)
                     + (nodes + strings)[HEADER_SIZE..]
    ensures FileWritten(file, strings, |nodes|, t)
    ensures HeaderWritten(file, toolVersion, |nodes| - HEADER_SIZE, |strings|)
  {
    var behind := (nodes + strings)[HEADER_SIZE..];
    assert HEADER_SIZE + |behind| == |nodes| + |strings|;
    HeaderRead(toolVersion, rootOff, |nodes| - HEADER_SIZE, |strings|, behind);
    FileFinished(nodes, strings, Header(toolVersion, |nodes| + |strings|, rootOff, |nodes| - HEADER_SIZE, |strings|),
                 rootOff, t);
  }
}
