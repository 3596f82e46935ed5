/**
  Both ends of a monitor (lib/libudev-monitor.c): writing the filter program, filling
  in the header of a message, and the exact filter behind the one in the kernel.
  */
module Monitor {
  import opened CStrings
  import opened MonitorFilter

  const INS_MAX: nat := 512
  const E2BIG: int := 7
  const EINVAL: int := 22

  // ---- udev_monitor_filter_update() ----

  /** What precedes the subsystem matches. */
  function BaseLength(tags: seq<CStr>): nat {
    3 + if tags == [] then 0 else 6 * |tags| + 1
  }

  ghost predicate TooBig(tags: seq<CStr>, subs: seq<Subsystem>) {
    exists n :: 0 < n <= |subs| && BaseLength(tags) + CodeLength(subs, n) + 1 >= INS_MAX
  }

  /**
    How many instructions are written from the n-th subsystem on, with i written before:
    the limit is looked at only when a subsystem's code is complete.
    */
  function WrittenFrom(subs: seq<Subsystem>, n: nat, i: nat): nat
    requires n <= |subs|
    decreases |subs| - n
  {
    if n == |subs| then i + if subs == [] then 1 else 2
    else
      var j := i + if subs[n].devtype.Any? then 3 else 5;
      if j + 1 >= INS_MAX then j else WrittenFrom(subs, n + 1, j)
  }

  /** All that udev_monitor_filter_update() writes. */
  function Written(tags: seq<CStr>, subs: seq<Subsystem>): nat {
    WrittenFrom(subs, 0, BaseLength(tags))
  }

  lemma WrittenNext(subs: seq<Subsystem>, n: nat, i: nat, j: nat, hash: Hash)
    requires n < |subs| && j == i + |SubsystemCode(subs[n], hash)|
    ensures WrittenFrom(subs, n, i) == if j + 1 >= INS_MAX then j else WrittenFrom(subs, n + 1, j)
  {
  }

  lemma Appended(before: seq<Ins>, subs: seq<Subsystem>, n: nat, hash: Hash)
    requires n < |subs|
    ensures (before + SubsystemsCode(subs, n, hash)) + SubsystemCode(subs[n], hash) ==
            before + SubsystemsCode(subs, n + 1, hash)
  {
  }

  /** The array, and what is written to it and behind it; what is behind it is not modelled. */
  class Compiler {
    const ins: array<Ins>
    var i: nat
    ghost var written: seq<Ins>

    ghost predicate Valid()
      reads this, ins
    {
      && ins.Length == INS_MAX
      && i == |written|
      && forall k :: 0 <= k < |written| && k < INS_MAX ==> ins[k] == written[k]
    }

    constructor ()
      ensures fresh(ins) && Valid() && written == []
    {
      ins := new Ins[INS_MAX](_ => Ret(DROP));
      i := 0;
      written := [];
    }

    /** bpf_stmt() and bpf_jmp(), which do not look where they write */
    method Put(x: Ins)
      requires Valid()
      modifies this, ins
      ensures Valid() && written == old(written) + [x]
    {
      if i < ins.Length {
        ins[i] := x;
      }
      i := i + 1;
      written := written + [x];
    }

    method PutTag(tag: CStr, more: nat, hash: Hash)
      requires Valid()
      modifies this, ins
      ensures Valid() && written == old(written) + TagCode(hash.bloom(tag), more)
    {
      var b := hash.bloom(tag);
      Put(Ld(OFF_BLOOM_HI));
      Put(And(b.hi));
      Put(Jump(b.hi, 0, 3));
      Put(Ld(OFF_BLOOM_LO));
      Put(And(b.lo));
      Put(Jump(b.lo, 1 + (more * 6), 0));
    }

    method PutTags(tags: seq<CStr>, hash: Hash)
      requires Valid()
      modifies this, ins
      ensures Valid() && written == old(written) + TagBlock(tags, hash)
    {
      if tags != [] {
        var tagMatches := |tags|;
        for n := 0 to |tags|
          invariant tagMatches == |tags| - n
          invariant Valid() && written == old(written) + TagsCode(tags, n, hash)
        {
          tagMatches := tagMatches - 1;
          PutTag(tags[n], tagMatches, hash);
        }
        Put(Ret(DROP));
      }
    }

    method PutSubsystem(s: Subsystem, hash: Hash)
      requires Valid()
      modifies this, ins
      ensures Valid() && written == old(written) + SubsystemCode(s, hash)
    {
      Put(Ld(OFF_SUBSYSTEM));
      match s.devtype
      case Any =>
        Put(Jump(hash.hash32(s.name), 0, 1));
        Put(Ret(PASS));
      case Devtype(d) =>
        Put(Jump(hash.hash32(s.name), 0, 3));
        Put(Ld(OFF_DEVTYPE));
        Put(Jump(hash.hash32(d), 0, 1));
        Put(Ret(PASS));
    }

    method PutSubsystems(subs: seq<Subsystem>, hash: Hash, ghost tags: seq<CStr>) returns (err: int)
      requires Valid() && i == BaseLength(tags)
      modifies this, ins
      ensures Valid() && err == if TooBig(tags, subs) then -7 else 0
      ensures err == 0 ==> written == old(written) + SubsystemBlock(subs, hash)
      ensures Written(tags, subs) == if err == 0 then i + 1 else i
    {
      if subs != [] {
        for n := 0 to |subs|
          invariant Valid() && i == BaseLength(tags) + CodeLength(subs, n)
          invariant forall m :: 0 < m <= n ==> BaseLength(tags) + CodeLength(subs, m) + 1 < INS_MAX
          invariant Written(tags, subs) == WrittenFrom(subs, n, i)
          invariant written == old(written) + SubsystemsCode(subs, n, hash)
        {
          WrittenNext(subs, n, i, i + |SubsystemCode(subs[n], hash)|, hash);
          Appended(old(written), subs, n, hash);
          PutSubsystem(subs[n], hash);
          if i + 1 >= INS_MAX {
            assert BaseLength(tags) + CodeLength(subs, n + 1) + 1 >= INS_MAX;
            return -E2BIG;
          }
        }
        Put(Ret(DROP));
      }
      return 0;
    }
  }

  /**
    udev_monitor_filter_update(): the program to install; without filters none is.  What
    happens once an instruction is written behind the array is not modelled.
    */
  method FilterUpdate(tags: seq<CStr>, subs: seq<Subsystem>, hash: Hash)
    returns (err: int, prog: seq<Ins>, overrun: bool)
    ensures overrun <==> Written(tags, subs) > INS_MAX
    ensures !overrun ==> err == if TooBig(tags, subs) then -7 else 0
    ensures !overrun && err == 0 ==> prog == if tags == [] && subs == [] then [] else Program(tags, subs, hash)
    ensures |prog| <= INS_MAX
  {
    if tags == [] && subs == [] {
      return 0, [], false;
    }
    var c := new Compiler();
    c.Put(Ld(OFF_MAGIC));
    c.Put(Jump(UDEV_MONITOR_MAGIC, 1, 0));
    c.Put(Ret(PASS));
    assert c.written == Prologue;
    c.PutTags(tags, hash);
    err := c.PutSubsystems(subs, hash, tags);
    prog := [];
    if err == 0 {
      c.Put(Ret(PASS));
      if c.i <= INS_MAX {
        prog := c.ins[..c.i];
        assert prog == c.written;
      }
    }
    overrun := c.i > INS_MAX;
  }

  // ---- the sender ----

  datatype Device = Device(subsystem: CStr, devtype: Devtype, tags: seq<CStr>)

  function Hi(bits: bv64): Word {
    ((bits >> 32) & 0xffffffff) as bv32
  }

  function Lo(bits: bv64): Word {
    (bits & 0xffffffff) as bv32
  }

  function OneBit(n: Word): bv64 {
    var one: bv64 := 1;
    one << (n & 63)
  }

  /** The k-th six bits of a hash, from the lowest on. */
  function Group(hash: Word, k: nat): Word
    requires k < 4
  {
    if k == 0 then hash & 63
    else if k == 1 then (hash >> 6) & 63
    else if k == 2 then (hash >> 12) & 63
    else (hash >> 18) & 63
  }

  /** The bits that the first k groups number. */
  function GroupBits(hash: Word, k: nat): bv64
    requires k <= 4
  {
    if k == 0 then 0 else GroupBits(hash, k - 1) | OneBit(Group(hash, k - 1))
  }

  /** util_string_bloom64(), from the string's hash. */
  function Bloom64(hash: Word): bv64 {
    GroupBits(hash, 4)
  }

  /** The hash functions as the library has them. */
  function Hashing(hash32: CStr -> Word): Hash {
    Hash(hash32, (s: CStr) => Bloom(Hi(Bloom64(hash32(s))), Lo(Bloom64(hash32(s)))))
  }

  predicate Meets64(bits: bv64, mask: bv64) {
    bits & mask != 0
  }

  predicate Meets(bits: Word, mask: Word) {
    bits & mask != 0
  }

  /** A bit is set exactly when some of the first n words has it. */
  ghost predicate UnionOf64(bits: bv64, words: seq<bv64>, n: nat)
    requires n <= |words|
  {
    forall mask :: Meets64(bits, mask) <==> exists i :: 0 <= i < n && Meets64(words[i], mask)
  }

  function Blooms(tags: seq<CStr>, bloom64: CStr -> bv64): (words: seq<bv64>)
    ensures |words| == |tags| && forall i :: 0 <= i < |tags| ==> words[i] == bloom64(tags[i])
  {
    seq(|tags|, i requires 0 <= i < |tags| => bloom64(tags[i]))
  }

  /** A bit is set exactly when some of the words has it. */
  ghost predicate UnionOf(bits: Word, words: seq<Word>) {
    forall mask :: Meets(bits, mask) <==> exists i :: 0 <= i < |words| && Meets(words[i], mask)
  }

  function Upper(tags: seq<CStr>, hash: Hash): (words: seq<Word>)
    ensures |words| == |tags| && forall i :: 0 <= i < |tags| ==> words[i] == hash.bloom(tags[i]).hi
  {
    seq(|tags|, i requires 0 <= i < |tags| => hash.bloom(tags[i]).hi)
  }

  function Lower(tags: seq<CStr>, hash: Hash): (words: seq<Word>)
    ensures |words| == |tags| && forall i :: 0 <= i < |tags| ==> words[i] == hash.bloom(tags[i]).lo
  {
    seq(|tags|, i requires 0 <= i < |tags| => hash.bloom(tags[i]).lo)
  }

  /** The two halves hold the Bloom bits of the tags, and no others. */
  ghost predicate BloomOf(b: Bloom, tags: seq<CStr>, hash: Hash) {
    UnionOf(b.hi, Upper(tags, hash)) && UnionOf(b.lo, Lower(tags, hash))
  }

  lemma MaskEither(a: bv64, b: bv64, mask: bv64)
    ensures (a | b) & mask == (a & mask) | (b & mask)
  {
  }

  lemma NothingInEither(a: bv64, b: bv64)
    ensures a | b == 0 <==> a == 0 && b == 0
  {
    if a | b == 0 {
      assert a & (a | b) == a && b & (a | b) == b;
    }
  }

  lemma MeetsEither(a: bv64, b: bv64, mask: bv64)
    ensures Meets64(a | b, mask) <==> Meets64(a, mask) || Meets64(b, mask)
  {
    MaskEither(a, b, mask);
    NothingInEither(a & mask, b & mask);
  }

  lemma MeetsNothing(mask: bv64)
    ensures !Meets64(0, mask)
  {
  }

  lemma SameBit(m: Word, n: Word)
    requires m < 64 && n < 64
    ensures Meets64(OneBit(m), OneBit(n)) <==> m == n
  {
  }

  lemma GroupSmall(hash: Word, k: nat)
    requires k < 4
    ensures Group(hash, k) < 64
  {
  }

  lemma {:induction false} GroupBitsSet(hash: Word, k: nat, n: Word)
    requires k <= 4 && n < 64
    ensures Meets64(GroupBits(hash, k), OneBit(n)) <==> exists j :: 0 <= j < k && Group(hash, j) == n
    decreases k
  {
    if k == 0 {
      MeetsNothing(OneBit(n));
    } else {
      GroupBitsSet(hash, k - 1, n);
      MeetsEither(GroupBits(hash, k - 1), OneBit(Group(hash, k - 1)), OneBit(n));
      GroupSmall(hash, k - 1);
      SameBit(Group(hash, k - 1), n);
    }
  }

  /** Bit n of a string's Bloom bits is set exactly if one of the lowest four groups of six bits of its hash is n. */
  lemma BloomBit(hash: Word, n: Word)
    requires n < 64
    ensures var one: bv64 := 1;
            Meets64(Bloom64(hash), one << n) <==>
            n == hash & 63 || n == (hash >> 6) & 63 || n == (hash >> 12) & 63 || n == (hash >> 18) & 63
  {
    GroupBitsSet(hash, 4, n);
    OneBitIs(n);
    assert (exists j :: 0 <= j < 4 && Group(hash, j) == n) <==>
           Group(hash, 0) == n || Group(hash, 1) == n || Group(hash, 2) == n || Group(hash, 3) == n;
  }

  lemma OneBitIs(n: Word)
    requires n < 64
    ensures var one: bv64 := 1; OneBit(n) == one << n
  {
  }

  /** |= */
  method Join(a: bv64, b: bv64) returns (both: bv64)
    ensures forall mask :: Meets64(both, mask) <==> Meets64(a, mask) || Meets64(b, mask)
  {
    both := a | b;
    forall mask
      ensures Meets64(both, mask) <==> Meets64(a, mask) || Meets64(b, mask)
    {
      MeetsEither(a, b, mask);
    }
  }

  lemma UnionOfOneMore(bits: bv64, both: bv64, words: seq<bv64>, n: nat)
    requires n < |words| && UnionOf64(bits, words, n)
    requires forall mask :: Meets64(both, mask) <==> Meets64(bits, mask) || Meets64(words[n], mask)
    ensures UnionOf64(both, words, n + 1)
  {
  }

  lemma UnionOfNone(words: seq<bv64>)
    ensures UnionOf64(0, words, 0)
  {
    forall mask
      ensures !Meets64(0, mask)
    {
      MeetsNothing(mask);
    }
  }

  /** The union of the tags' Bloom bits. */
  method TagBits(tags: seq<CStr>, bloom64: CStr -> bv64) returns (bits: bv64)
    ensures UnionOf64(bits, Blooms(tags, bloom64), |tags|)
  {
    bits := 0;
    ghost var words := Blooms(tags, bloom64);
    UnionOfNone(words);
    for n := 0 to |tags|
      invariant UnionOf64(bits, words, n)
    {
      var both := Join(bits, bloom64(tags[n]));
      UnionOfOneMore(bits, both, words, n);
      bits := both;
    }
  }

  lemma MeetsHi(bits: bv64, mask: Word)
    ensures Meets(Hi(bits), mask) <==> Meets64(bits, (mask as bv64) << 32)
  {
  }

  lemma MeetsLo(bits: bv64, mask: Word)
    ensures Meets(Lo(bits), mask) <==> Meets64(bits, mask as bv64)
  {
    assert (Lo(bits) & mask) as bv64 == bits & (mask as bv64);
  }

  lemma UpperHalf(bits: bv64, words: seq<bv64>, halves: seq<Word>)
    requires UnionOf64(bits, words, |words|)
    requires |halves| == |words| && forall i :: 0 <= i < |words| ==> halves[i] == Hi(words[i])
    ensures UnionOf(Hi(bits), halves)
  {
    forall mask
      ensures Meets(Hi(bits), mask) <==> exists i :: 0 <= i < |halves| && Meets(halves[i], mask)
    {
      MeetsHi(bits, mask);
      forall i | 0 <= i < |halves|
        ensures Meets(halves[i], mask) <==> Meets64(words[i], (mask as bv64) << 32)
      {
        MeetsHi(words[i], mask);
      }
    }
  }

  lemma LowerHalf(bits: bv64, words: seq<bv64>, halves: seq<Word>)
    requires UnionOf64(bits, words, |words|)
    requires |halves| == |words| && forall i :: 0 <= i < |words| ==> halves[i] == Lo(words[i])
    ensures UnionOf(Lo(bits), halves)
  {
    forall mask
      ensures Meets(Lo(bits), mask) <==> exists i :: 0 <= i < |halves| && Meets(halves[i], mask)
    {
      MeetsLo(bits, mask);
      forall i | 0 <= i < |halves|
        ensures Meets(halves[i], mask) <==> Meets64(words[i], mask as bv64)
      {
        MeetsLo(words[i], mask);
      }
    }
  }

  /** The two header fields for the tags; unset they are 0. */
  method BloomFields(tags: seq<CStr>, hash: Hash, hash32: CStr -> Word) returns (b: Bloom)
    requires hash == Hashing(hash32)
    ensures BloomOf(b, tags, hash)
  {
    var bloom64 := (s: CStr) => Bloom64(hash32(s));
    var bits := TagBits(tags, bloom64);
    UpperHalf(bits, Blooms(tags, bloom64), Upper(tags, hash));
    LowerHalf(bits, Blooms(tags, bloom64), Lower(tags, hash));
    b := Bloom(0, 0);
    if bits > 0 {
      b := Bloom(Hi(bits), Lo(bits));
    }
  }

  // ---- what the two fields tell ----

  lemma AllMet(a: Word, k: Word)
    requires Meets(k, k & !a) ==> Meets(a, k & !a)
    ensures BitsSet(a, k)
  {
  }

  lemma SameBits(a: Word, b: Word)
    requires BitsSet(a, b) && BitsSet(b, a)
    ensures a == b
  {
  }

  /** The bits of each of the words are set. */
  lemma UnionHolds(bits: Word, words: seq<Word>, i: nat)
    requires UnionOf(bits, words) && i < |words|
    ensures BitsSet(bits, words[i])
  {
    AllMet(bits, words[i]);
  }

  lemma UnionWithin(bits: Word, words: seq<Word>, bits': Word, words': seq<Word>)
    requires UnionOf(bits, words) && UnionOf(bits', words') && forall w :: w in words ==> w in words'
    ensures BitsSet(bits', bits)
  {
    var mask := bits & !bits';
    if Meets(bits, mask) {
      var i :| 0 <= i < |words| && Meets(words[i], mask);
      assert words[i] in words';
    }
    AllMet(bits', bits);
  }

  /** No other bits are set: the same tags, in whatever order, give the same fields. */
  lemma SameTagsSameBloom(b: Bloom, tags: seq<CStr>, b': Bloom, tags': seq<CStr>, hash: Hash)
    requires BloomOf(b, tags, hash) && BloomOf(b', tags', hash)
    requires (forall tag :: tag in tags ==> tag in tags') && (forall tag :: tag in tags' ==> tag in tags)
    ensures b == b'
  {
    BloomWithin(b, tags, b', tags', hash);
    BloomWithin(b', tags', b, tags, hash);
    SameBits(b.hi, b'.hi);
    SameBits(b.lo, b'.lo);
  }

  /** More tags, more bits. */
  lemma BloomWithin(b: Bloom, tags: seq<CStr>, b': Bloom, tags': seq<CStr>, hash: Hash)
    requires BloomOf(b, tags, hash) && BloomOf(b', tags', hash) && forall tag :: tag in tags ==> tag in tags'
    ensures BitsSet(b'.hi, b.hi) && BitsSet(b'.lo, b.lo)
  {
    forall i | 0 <= i < |tags|
      ensures hash.bloom(tags[i]).hi in Upper(tags', hash) && hash.bloom(tags[i]).lo in Lower(tags', hash)
    {
      assert tags[i] in tags';
      var j :| 0 <= j < |tags'| && tags'[j] == tags[i];
      assert Upper(tags', hash)[j] == hash.bloom(tags[i]).hi && Lower(tags', hash)[j] == hash.bloom(tags[i]).lo;
    }
    UnionWithin(b.hi, Upper(tags, hash), b'.hi, Upper(tags', hash));
    UnionWithin(b.lo, Lower(tags, hash), b'.lo, Lower(tags', hash));
  }

  const HEADER_BYTES: nat := 40

  /** An unsigned int of the host as the filter sees it, in the host's byte order. */
  type Stored = nat -> Word

  /** The header, word by word: "libudev" and NUL, the magic, and what filters look at. */
  ghost predicate HeaderWords(packet: Packet, dev: Device, hash: Hash) {
    && |packet| >= 10
    && packet[0] == 0x6c696275 && packet[1] == 0x64657600 && packet[2] == 0xfeedcafe
    && packet[6] == hash.hash32(dev.subsystem)
    && packet[7] == (if dev.devtype.Devtype? then hash.hash32(dev.devtype.name) else 0)
    && BloomOf(Bloom(packet[8], packet[9]), dev.tags, hash)
  }

  /** The fields a filter looks at tell the device, the Bloom fields its tags' bits and no others; unset they are 0. */
  ghost predicate Describes(packet: Packet, dev: Device, hash: Hash) {
    && |packet| >= 10
    && Field(packet, OFF_MAGIC) == UDEV_MONITOR_MAGIC
    && Field(packet, OFF_SUBSYSTEM) == hash.hash32(dev.subsystem)
    && Field(packet, OFF_DEVTYPE) == (if dev.devtype.Devtype? then hash.hash32(dev.devtype.name) else 0)
    && BloomOf(Bloom(Field(packet, OFF_BLOOM_HI), Field(packet, OFF_BLOOM_LO)), dev.tags, hash)
  }

  lemma DescribedByHeader(header: Packet, properties: Packet, dev: Device, hash: Hash)
    requires |header| == 10 && Describes(header, dev, hash) && HeaderWords(header, dev, hash)
    ensures Describes(header + properties, dev, hash) && (header + properties)[10..] == properties
    ensures HeaderWords(header + properties, dev, hash)
    ensures forall i :: 0 <= i < 10 ==> (header + properties)[i] == header[i]
  {
  }

  /** The versioned header. */
  method MakeHeader(dev: Device, b: Bloom, blen: nat, stored: Stored, hash: Hash) returns (header: Packet)
    requires BloomOf(b, dev.tags, hash)
    ensures |header| == 10 && Describes(header, dev, hash) && HeaderWords(header, dev, hash)
    ensures header[3] == header[4] == stored(HEADER_BYTES) && header[5] == stored(blen % 0x1_0000_0000)
  {
    var devtypeHash: Word := 0;
    if dev.devtype.Devtype? {
      devtypeHash := hash.hash32(dev.devtype.name);
    }
    // "libudev" and NUL; the sizes are not stored in network order
    header := [0x6c696275, 0x64657600, UDEV_MONITOR_MAGIC,
               stored(HEADER_BYTES), stored(HEADER_BYTES), stored(blen % 0x1_0000_0000),
               hash.hash32(dev.subsystem), devtypeHash, b.hi, b.lo];
  }

  /**
    udev_monitor_send_device(): the header, and behind it the properties, blen bytes of
    them; a shorter buffer is not sent.
    */
  method SendDevice(dev: Device, properties: Packet, blen: int, stored: Stored, hash: Hash, hash32: CStr -> Word)
    returns (err: int, packet: Packet)
    requires hash == Hashing(hash32)
    ensures err == if blen < 32 then -22 else 0
    ensures err == 0 ==> Describes(packet, dev, hash) && packet[10..] == properties
    ensures err == 0 ==> HeaderWords(packet, dev, hash)
    ensures err == 0 ==> packet[3] == packet[4] == stored(40) && packet[5] == stored(blen % 0x1_0000_0000)
  {
    if blen < 32 {
      return -EINVAL, [];
    }
    var b := BloomFields(dev.tags, hash, hash32);
    var header := MakeHeader(dev, b, blen, stored, hash);
    DescribedByHeader(header, properties, dev, hash);
    packet := header + properties;
    err := 0;
  }

  // ---- the receiver's test of the header ----

  /** What a message is taken for: one of udev, with its properties at a byte, or of the kernel. */
  datatype Origin = Refused | FromUdev(properties: nat) | FromKernel

  /** How an unsigned int of the host is read from its stored form. */
  type Loaded = Word -> nat

  ghost predicate Inverse(loaded: Loaded, stored: Stored) {
    forall n: nat :: n < 0x1_0000_0000 ==> loaded(stored(n)) == n
  }

  /**
    udev_monitor_receive_device(), up to where the properties begin; what is asked of
    messages of the kernel is left out.
    */
  method TestHeader(packet: Packet, buflen: nat, loaded: Loaded) returns (origin: Origin)
    requires buflen <= 4 * |packet|
    ensures origin.Refused? <== buflen < 32 || buflen >= 8192
    ensures 32 <= buflen < 8192 ==>
              var prefix := packet[0] == 0x6c696275 && packet[1] == 0x64657600;
              && (origin.FromKernel? <==> !prefix)
              && (origin.FromUdev? <==> prefix && packet[2] == 0xfeedcafe &&
                                        (loaded(packet[4]) + 32) % 0x1_0000_0000 <= buflen)
              && (origin.FromUdev? ==> origin.properties == loaded(packet[4]))
  {
    if buflen < 32 || buflen >= 8192 {
      return Refused;
    }
    if packet[0] != 0x6c696275 || packet[1] != 0x64657600 {
      return FromKernel;
    }
    if packet[2] != UDEV_MONITOR_MAGIC {
      return Refused;
    }
    if (loaded(packet[4]) + 32) % 0x1_0000_0000 > buflen {
      return Refused;
    }
    origin := FromUdev(loaded(packet[4]));
  }

  /**
    A device sent is received: what is sent is taken for a message of udev, with the
    properties where they are, unless it fills the receiver's buffer of 8192 bytes.
    */
  method SendAndReceive(dev: Device, properties: Packet, blen: int, stored: Stored, loaded: Loaded, hash: Hash,
                        hash32: CStr -> Word)
    returns (err: int, packet: Packet, origin: Origin)
    requires hash == Hashing(hash32) && Inverse(loaded, stored) && blen <= 4 * |properties|
    ensures err == if blen < 32 then -22 else 0
    ensures err == 0 ==> origin == if 40 + blen < 8192 then FromUdev(40) else Refused
    ensures err == 0 ==> HeaderWords(packet, dev, hash) && packet[40 / 4..] == properties
  {
    origin := Refused;
    err, packet := SendDevice(dev, properties, blen, stored, hash, hash32);
    if err == 0 {
      assert |packet| == 10 + |packet[10..]|;
      assert loaded(stored(40)) == 40;
      origin := TestHeader(packet, 40 + blen, loaded);
    }
  }

  // ---- the exact filter ----

  predicate SubsystemPasses(s: Subsystem, dev: Device) {
    dev.subsystem == s.name && (s.devtype.Any? || s.devtype == dev.devtype)
  }

  ghost predicate Passes(tags: seq<CStr>, subs: seq<Subsystem>, dev: Device) {
    && (subs == [] || exists i :: 0 <= i < |subs| && SubsystemPasses(subs[i], dev))
    && (tags == [] || exists i :: 0 <= i < |tags| && tags[i] in dev.tags)
  }

  /** passes_filter() */
  method PassesFilter(tags: seq<CStr>, subs: seq<Subsystem>, dev: Device) returns (passes: bool)
    ensures passes <==> Passes(tags, subs, dev)
  {
    var tag := subs == [];
    for i := 0 to |subs|
      invariant tag <==> subs == [] || exists j :: 0 <= j < i && SubsystemPasses(subs[j], dev)
    {
      if !tag {
        if dev.subsystem == subs[i].name {
          if subs[i].devtype == Any {
            tag := true;
          } else if dev.devtype != Any {
            if dev.devtype == subs[i].devtype {
              tag := true;
            }
          }
        }
      }
    }
    if !tag {
      return false;
    }
    if tags == [] {
      return true;
    }
    for i := 0 to |tags|
      invariant forall j :: 0 <= j < i ==> tags[j] !in dev.tags
    {
      if tags[i] in dev.tags {
        return true;
      }
    }
    return false;
  }

  /**
    The filter in the kernel never loses a message: what passes the exact filter, the
    program accepts in the header that the sender builds for it.
    */
  lemma NothingLost(tags: seq<CStr>, subs: seq<Subsystem>, dev: Device, packet: Packet, hash: Hash)
    requires |tags| <= MAX_TAGS && Describes(packet, dev, hash)
    requires Passes(tags, subs, dev)
    ensures Exec(Program(tags, subs, hash), 0, 0, packet) == 0xffffffff
  {
    ProgramMeans(tags, subs, 0, packet, hash);
    if tags != [] {
      var i :| 0 <= i < |tags| && tags[i] in dev.tags;
      var j :| 0 <= j < |dev.tags| && dev.tags[j] == tags[i];
      UnionHolds(Field(packet, OFF_BLOOM_HI), Upper(dev.tags, hash), j);
      UnionHolds(Field(packet, OFF_BLOOM_LO), Lower(dev.tags, hash), j);
      assert TagMatches(hash.bloom(tags[i]), packet);
    }
    if subs != [] {
      var i :| 0 <= i < |subs| && SubsystemPasses(subs[i], dev);
      assert SubsystemMatches(subs[i], packet, hash);
    }
  }

  /** From the filters and the device to the verdict: updated, sent and run, a message that passes is not dropped. */
  method FilterAndSend(tags: seq<CStr>, subs: seq<Subsystem>, dev: Device, properties: Packet, blen: int,
                       stored: Stored, hash32: CStr -> Word)
    returns (err: int, prog: seq<Ins>, overrun: bool, sent: int, packet: Packet)
    ensures overrun <==> Written(tags, subs) > INS_MAX
    ensures !overrun ==> (err == 0 <==> !TooBig(tags, subs))
    ensures sent == 0 <==> blen >= 32
    ensures sent == 0 ==> HeaderWords(packet, dev, Hashing(hash32)) && packet[10..] == properties
    ensures !overrun && err == 0 ==> (prog == [] <==> tags == [] && subs == [])
    ensures !overrun && err == 0 && sent == 0 && |tags| <= MAX_TAGS && Passes(tags, subs, dev) ==>
              prog == [] || Exec(prog, 0, 0, packet) == 0xffffffff
  {
    var hash := Hashing(hash32);
    err, prog, overrun := FilterUpdate(tags, subs, hash);
    sent, packet := SendDevice(dev, properties, blen, stored, hash, hash32);
    if !overrun && err == 0 && sent == 0 && |tags| <= MAX_TAGS && Passes(tags, subs, dev) {
      NothingLost(tags, subs, dev, packet, hash);
    }
  }
}
