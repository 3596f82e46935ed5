/**
  The socket filter of a monitor (lib/libudev-monitor.c): tags and subsystems compiled
  to classic BPF over the header that the sender puts before a message.

  The hash of a string is a parameter; the Bloom bits of a tag are taken from it as in
  lib/libudev-util.c.
  */
module MonitorFilter {
  import opened CStrings

  type Word = bv32

  datatype Devtype = Any | Devtype(name: CStr)
  datatype Subsystem = Subsystem(name: CStr, devtype: Devtype)

  // ---- the machine ----

  datatype Ins = Ld(off: nat) | And(k: Word) | Jeq(k: Word, jt: nat, jf: nat) | Ret(k: Word)

  const DROP: Word := 0
  const PASS: Word := 0xffffffff

  /** A message, word by word in network order.  A load behind its end drops it, as here one between words does. */
  type Packet = seq<Word>

  /** What the filter returns: 0 drops the message. */
  function Exec(prog: seq<Ins>, pc: nat, a: Word, packet: Packet): Word
    decreases |prog| - pc
  {
    if pc >= |prog| then DROP
    else
      match prog[pc]
      case Ld(off) => if off % 4 == 0 && off / 4 < |packet| then Exec(prog, pc + 1, packet[off / 4], packet) else DROP
      case And(k) => Exec(prog, pc + 1, a & k, packet)
      case Jeq(k, jt, jf) => Exec(prog, pc + 1 + if a == k then jt else jf, a, packet)
      case Ret(k) => k
  }

  // ---- the header ----

  const UDEV_MONITOR_MAGIC: Word := 0xfeedcafe
  const OFF_MAGIC: nat := 8
  const OFF_SUBSYSTEM: nat := 24
  const OFF_DEVTYPE: nat := 28
  const OFF_BLOOM_HI: nat := 32
  const OFF_BLOOM_LO: nat := 36

  function Field(packet: Packet, off: nat): Word
    requires off / 4 < |packet|
  {
    packet[off / 4]
  }

  /** A string's hash, and the two halves of its Bloom bits. */
  datatype Bloom = Bloom(hi: Word, lo: Word)
  datatype Hash = Hash(hash32: CStr -> Word, bloom: CStr -> Bloom)

  // ---- the program ----

  /** bpf_jmp(): the offsets are stored in a byte each. */
  function Jump(k: Word, jt: nat, jf: nat): Ins {
    Jeq(k, jt % 256, jf % 256)
  }

  /** One tag, when this many more follow. */
  function TagCode(b: Bloom, more: nat): (code: seq<Ins>)
    ensures |code| == 6
  {
    [Ld(OFF_BLOOM_HI), And(b.hi), Jump(b.hi, 0, 3), Ld(OFF_BLOOM_LO), And(b.lo), Jump(b.lo, 1 + more * 6, 0)]
  }

  /** The first n of the tags. */
  function TagsCode(tags: seq<CStr>, n: nat, hash: Hash): (code: seq<Ins>)
    requires n <= |tags|
    ensures |code| == 6 * n
  {
    if n == 0 then [] else TagsCode(tags, n - 1, hash) + TagCode(hash.bloom(tags[n - 1]), |tags| - n)
  }

  function TagBlock(tags: seq<CStr>, hash: Hash): seq<Ins> {
    if tags == [] then [] else TagsCode(tags, |tags|, hash) + [Ret(DROP)]
  }

  function SubsystemCode(s: Subsystem, hash: Hash): (code: seq<Ins>)
    ensures |code| == if s.devtype.Any? then 3 else 5
  {
    match s.devtype
    case Any => [Ld(OFF_SUBSYSTEM), Jump(hash.hash32(s.name), 0, 1), Ret(PASS)]
    case Devtype(d) => [Ld(OFF_SUBSYSTEM), Jump(hash.hash32(s.name), 0, 3), Ld(OFF_DEVTYPE),
                        Jump(hash.hash32(d), 0, 1), Ret(PASS)]
  }

  /** The first n of the subsystems. */
  function SubsystemsCode(subs: seq<Subsystem>, n: nat, hash: Hash): (code: seq<Ins>)
    requires n <= |subs|
    ensures |code| == CodeLength(subs, n)
  {
    if n == 0 then [] else SubsystemsCode(subs, n - 1, hash) + SubsystemCode(subs[n - 1], hash)
  }

  function CodeLength(subs: seq<Subsystem>, n: nat): nat
    requires n <= |subs|
  {
    if n == 0 then 0 else CodeLength(subs, n - 1) + if subs[n - 1].devtype.Any? then 3 else 5
  }

  function SubsystemBlock(subs: seq<Subsystem>, hash: Hash): seq<Ins> {
    if subs == [] then [] else SubsystemsCode(subs, |subs|, hash) + [Ret(DROP)]
  }

  const Prologue: seq<Ins> := [Ld(OFF_MAGIC), Jump(UDEV_MONITOR_MAGIC, 1, 0), Ret(PASS)]

  function Program(tags: seq<CStr>, subs: seq<Subsystem>, hash: Hash): seq<Ins> {
    Prologue + TagBlock(tags, hash) + SubsystemBlock(subs, hash) + [Ret(PASS)]
  }

  // ---- what it is to accept ----

  predicate BitsSet(a: Word, k: Word) {
    a & k == k
  }

  predicate TagMatches(b: Bloom, packet: Packet)
    requires |packet| >= 10
  {
    BitsSet(Field(packet, OFF_BLOOM_HI), b.hi) && BitsSet(Field(packet, OFF_BLOOM_LO), b.lo)
  }

  predicate SubsystemMatches(s: Subsystem, packet: Packet, hash: Hash)
    requires |packet| >= 10
  {
    && Field(packet, OFF_SUBSYSTEM) == hash.hash32(s.name)
    && (s.devtype.Devtype? ==> Field(packet, OFF_DEVTYPE) == hash.hash32(s.devtype.name))
  }

  /** Some tag's bits are all set, if there are tags; some subsystem's hashes are equal, if there are subsystems. */
  ghost predicate Accepted(tags: seq<CStr>, subs: seq<Subsystem>, packet: Packet, hash: Hash)
    requires |packet| >= 10
  {
    && (tags == [] || exists i :: 0 <= i < |tags| && TagMatches(hash.bloom(tags[i]), packet))
    && (subs == [] || exists i :: 0 <= i < |subs| && SubsystemMatches(subs[i], packet, hash))
  }

  // ---- execution ----

  /** The code is in the program at the position. */
  ghost predicate CodeAt(prog: seq<Ins>, pc: nat, code: seq<Ins>) {
    pc + |code| <= |prog| && forall i {:trigger code[i]} :: 0 <= i < |code| ==> prog[pc + i] == code[i]
  }

  lemma CodeParts(prog: seq<Ins>, pc: nat, a: seq<Ins>, b: seq<Ins>)
    ensures CodeAt(prog, pc, a + b) <==> CodeAt(prog, pc, a) && CodeAt(prog, pc + |a|, b)
  {
    if CodeAt(prog, pc, a + b) {
      forall i | 0 <= i < |a|
        ensures prog[pc + i] == a[i]
      {
        assert (a + b)[i] == a[i];
      }
      forall i | 0 <= i < |b|
        ensures prog[pc + |a| + i] == b[i]
      {
        assert (a + b)[|a| + i] == b[i];
      }
    }
  }

  lemma StepLd(prog: seq<Ins>, pc: nat, off: nat, a: Word, packet: Packet)
    requires pc < |prog| && prog[pc] == Ld(off) && off % 4 == 0 && off / 4 < |packet|
    ensures Exec(prog, pc, a, packet) == Exec(prog, pc + 1, Field(packet, off), packet)
  {
  }

  /** Keep some bits and compare: together they test whether these bits are set. */
  lemma StepMasked(prog: seq<Ins>, pc: nat, k: Word, yes: nat, no: nat, a: Word, packet: Packet)
    requires pc + 1 < |prog| && pc + 1 < yes && pc + 1 < no
    requires prog[pc] == And(k) && prog[pc + 1] == Jeq(k, yes - pc - 2, no - pc - 2)
    ensures Exec(prog, pc, a, packet) == Exec(prog, if BitsSet(a, k) then yes else no, a & k, packet)
  {
    StepAnd(prog, pc, k, a, packet);
    StepJeq(prog, pc + 1, k, yes, no, a & k, packet);
  }

  lemma StepAnd(prog: seq<Ins>, pc: nat, k: Word, a: Word, packet: Packet)
    requires pc < |prog| && prog[pc] == And(k)
    ensures Exec(prog, pc, a, packet) == Exec(prog, pc + 1, a & k, packet)
  {
  }

  lemma StepJeq(prog: seq<Ins>, pc: nat, k: Word, yes: nat, no: nat, a: Word, packet: Packet)
    requires pc < |prog| && pc < yes && pc < no && prog[pc] == Jeq(k, yes - pc - 1, no - pc - 1)
    ensures Exec(prog, pc, a, packet) == Exec(prog, if a == k then yes else no, a, packet)
  {
  }

  /** Load a field, keep some of its bits, and compare. */
  lemma MaskExec(prog: seq<Ins>, pc: nat, off: nat, k: Word, yes: nat, no: nat, a: Word, packet: Packet)
    returns (hit: bool, v: Word)
    requires off % 4 == 0 && off / 4 < |packet| && pc + 2 < yes && pc + 2 < no
    requires CodeAt(prog, pc, [Ld(off), And(k), Jeq(k, yes - pc - 3, no - pc - 3)])
    ensures hit <==> BitsSet(Field(packet, off), k)
    ensures Exec(prog, pc, a, packet) == Exec(prog, if hit then yes else no, v, packet)
  {
    var code := [Ld(off), And(k), Jeq(k, yes - pc - 3, no - pc - 3)];
    assert prog[pc + 0] == code[0] && prog[pc + 1] == code[1] && prog[pc + 2] == code[2];
    hit, v := BitsSet(Field(packet, off), k), Field(packet, off) & k;
    StepLd(prog, pc, off, a, packet);
    StepMasked(prog, pc + 1, k, yes, no, Field(packet, off), packet);
  }

  lemma TagHalves(prog: seq<Ins>, pc: nat, b: Bloom, more: nat)
    requires CodeAt(prog, pc, TagCode(b, more)) && more <= 42
    ensures CodeAt(prog, pc, [Ld(OFF_BLOOM_HI), And(b.hi), Jeq(b.hi, 0, 3)])
    ensures CodeAt(prog, pc + 3, [Ld(OFF_BLOOM_LO), And(b.lo), Jeq(b.lo, 1 + more * 6, 0)])
  {
    var first := [Ld(OFF_BLOOM_HI), And(b.hi), Jeq(b.hi, 0, 3)];
    var second := [Ld(OFF_BLOOM_LO), And(b.lo), Jeq(b.lo, 1 + more * 6, 0)];
    assert TagCode(b, more) == first + second;
    CodeParts(prog, pc, first, second);
  }

  /** A tag: when its bits are set the block is left behind, else the next instruction behind this code follows. */
  lemma TagExec(prog: seq<Ins>, pc: nat, b: Bloom, more: nat, yes: nat, no: nat, a: Word, packet: Packet)
    returns (matches: bool, a': Word)
    requires |packet| >= 10 && CodeAt(prog, pc, TagCode(b, more))
    requires more <= 42 && yes == pc + 7 + more * 6 && no == pc + 6
    ensures matches <==> TagMatches(b, packet)
    ensures Exec(prog, pc, a, packet) == Exec(prog, if matches then yes else no, a', packet)
  {
    TagHalves(prog, pc, b, more);
    var lo := pc + 3;
    matches, a' := MaskExec(prog, pc, OFF_BLOOM_HI, b.hi, lo, no, a, packet);
    if matches {
      matches, a' := MaskExec(prog, lo, OFF_BLOOM_LO, b.lo, yes, no, a', packet);
    }
  }

  lemma {:induction false} TagsCodeAt(prog: seq<Ins>, pc: nat, tags: seq<CStr>, n: nat, i: nat, hash: Hash)
    requires i < n <= |tags| && CodeAt(prog, pc, TagsCode(tags, n, hash))
    ensures CodeAt(prog, pc + 6 * i, TagCode(hash.bloom(tags[i]), |tags| - 1 - i))
    decreases n
  {
    CodeParts(prog, pc, TagsCode(tags, n - 1, hash), TagCode(hash.bloom(tags[n - 1]), |tags| - n));
    if i < n - 1 {
      TagsCodeAt(prog, pc, tags, n - 1, i, hash);
    }
  }

  ghost predicate SomeTag(tags: seq<CStr>, i: nat, packet: Packet, hash: Hash)
    requires |packet| >= 10
  {
    exists j :: i <= j < |tags| && TagMatches(hash.bloom(tags[j]), packet)
  }

  /** From the i-th tag on: a tag that matches leads past the block, none to its end. */
  lemma {:induction false} TagsExec(prog: seq<Ins>, pc: nat, tags: seq<CStr>, i: nat, at: nat, yes: nat, no: nat,
                                    a: Word, packet: Packet, hash: Hash) returns (a': Word)
    requires |packet| >= 10 && i <= |tags| <= 43 + i && CodeAt(prog, pc, TagsCode(tags, |tags|, hash))
    requires at == pc + 6 * i && no == pc + 6 * |tags| && yes == no + 1
    ensures Exec(prog, at, a, packet) == Exec(prog, if SomeTag(tags, i, packet, hash) then yes else no, a', packet)
    decreases |tags| - i
  {
    a' := a;
    if i < |tags| {
      TagsCodeAt(prog, pc, tags, |tags|, i, hash);
      var matches;
      matches, a' := TagExec(prog, at, hash.bloom(tags[i]), |tags| - 1 - i, yes, at + 6, a, packet);
      if !matches {
        a' := TagsExec(prog, pc, tags, i + 1, at + 6, yes, no, a', packet, hash);
      }
    }
  }

  /** Load a field and compare. */
  lemma EqualExec(prog: seq<Ins>, pc: nat, off: nat, k: Word, no: nat, a: Word, packet: Packet) returns (v: Word)
    requires off % 4 == 0 && off / 4 < |packet| && pc + 1 < no && CodeAt(prog, pc, [Ld(off), Jeq(k, 0, no - pc - 2)])
    ensures v == Field(packet, off)
    ensures Exec(prog, pc, a, packet) == Exec(prog, if v == k then pc + 2 else no, v, packet)
  {
    var code := [Ld(off), Jeq(k, 0, no - pc - 2)];
    assert prog[pc + 0] == code[0] && prog[pc + 1] == code[1];
    v := Field(packet, off);
    StepLd(prog, pc, off, a, packet);
    StepJeq(prog, pc + 1, k, pc + 2, no, v, packet);
  }

  /** A subsystem: a match passes the message, else the next instruction behind this code follows. */
  lemma SubsystemExec(prog: seq<Ins>, pc: nat, s: Subsystem, no: nat, a: Word, packet: Packet, hash: Hash)
    returns (a': Word)
    requires |packet| >= 10 && CodeAt(prog, pc, SubsystemCode(s, hash)) && no == pc + |SubsystemCode(s, hash)|
    ensures Exec(prog, pc, a, packet) ==
            if SubsystemMatches(s, packet, hash) then PASS else Exec(prog, no, a', packet)
  {
    var code := SubsystemCode(s, hash);
    var n := |code|;
    var first := [Ld(OFF_SUBSYSTEM), Jeq(hash.hash32(s.name), 0, n - 2)];
    assert code[n - 1] == Ret(PASS) && prog[pc + (n - 1)] == code[n - 1];
    assert code == first + code[2..];
    CodeParts(prog, pc, first, code[2..]);
    a' := EqualExec(prog, pc, OFF_SUBSYSTEM, hash.hash32(s.name), no, a, packet);
    if s.devtype.Devtype? && a' == hash.hash32(s.name) {
      var second := [Ld(OFF_DEVTYPE), Jeq(hash.hash32(s.devtype.name), 0, 1)];
      assert code[2..] == second + [Ret(PASS)];
      CodeParts(prog, pc + 2, second, [Ret(PASS)]);
      a' := EqualExec(prog, pc + 2, OFF_DEVTYPE, hash.hash32(s.devtype.name), no, a', packet);
    }
  }

  ghost predicate SomeSubsystem(subs: seq<Subsystem>, n: nat, packet: Packet, hash: Hash)
    requires |packet| >= 10 && n <= |subs|
  {
    exists j :: 0 <= j < n && SubsystemMatches(subs[j], packet, hash)
  }

  lemma SomeOrLast(subs: seq<Subsystem>, n: nat, packet: Packet, hash: Hash)
    requires |packet| >= 10 && 0 < n <= |subs|
    ensures SomeSubsystem(subs, n, packet, hash) <==>
            SomeSubsystem(subs, n - 1, packet, hash) || SubsystemMatches(subs[n - 1], packet, hash)
  {
  }

  lemma {:induction false} SubsystemsExec(prog: seq<Ins>, pc: nat, subs: seq<Subsystem>, n: nat, no: nat,
                                          a: Word, packet: Packet, hash: Hash) returns (a': Word)
    requires |packet| >= 10 && n <= |subs| && CodeAt(prog, pc, SubsystemsCode(subs, n, hash))
    requires no == pc + CodeLength(subs, n)
    ensures Exec(prog, pc, a, packet) == if SomeSubsystem(subs, n, packet, hash) then PASS
            else Exec(prog, no, a', packet)
    decreases n
  {
    a' := a;
    if n > 0 {
      CodeParts(prog, pc, SubsystemsCode(subs, n - 1, hash), SubsystemCode(subs[n - 1], hash));
      var at := pc + CodeLength(subs, n - 1);
      a' := SubsystemsExec(prog, pc, subs, n - 1, at, a, packet, hash);
      SomeOrLast(subs, n, packet, hash);
      if !SomeSubsystem(subs, n - 1, packet, hash) {
        a' := SubsystemExec(prog, at, subs[n - 1], no, a', packet, hash);
      }
    }
  }

  // ---- the whole program ----

  const MAX_TAGS: nat := 43

  lemma BlocksAt(tags: seq<CStr>, subs: seq<Subsystem>, hash: Hash)
    ensures var prog, tagsAt := Program(tags, subs, hash), 3;
            var subsAt := tagsAt + |TagBlock(tags, hash)|;
            && CodeAt(prog, 0, Prologue)
            && CodeAt(prog, tagsAt, TagBlock(tags, hash))
            && CodeAt(prog, subsAt, SubsystemBlock(subs, hash))
            && CodeAt(prog, subsAt + |SubsystemBlock(subs, hash)|, [Ret(PASS)])
  {
    var prog, t, s := Program(tags, subs, hash), TagBlock(tags, hash), SubsystemBlock(subs, hash);
    assert CodeAt(prog, 0, prog);
    CodeParts(prog, 0, Prologue + t + s, [Ret(PASS)]);
    CodeParts(prog, 0, Prologue + t, s);
    CodeParts(prog, 0, Prologue, t);
  }

  lemma StepRet(prog: seq<Ins>, pc: nat, k: Word, a: Word, packet: Packet)
    requires CodeAt(prog, pc, [Ret(k)])
    ensures Exec(prog, pc, a, packet) == k
  {
    assert prog[pc + 0] == [Ret(k)][0];
  }

  /** The subsystem block and the end of the program. */
  lemma TailExec(prog: seq<Ins>, pc: nat, subs: seq<Subsystem>, a: Word, packet: Packet, hash: Hash)
    requires |packet| >= 10 && CodeAt(prog, pc, SubsystemBlock(subs, hash))
    requires CodeAt(prog, pc + |SubsystemBlock(subs, hash)|, [Ret(PASS)])
    ensures Exec(prog, pc, a, packet) == if subs == [] || SomeSubsystem(subs, |subs|, packet, hash) then PASS else DROP
  {
    if subs == [] {
      StepRet(prog, pc, PASS, a, packet);
    } else {
      CodeParts(prog, pc, SubsystemsCode(subs, |subs|, hash), [Ret(DROP)]);
      var no := pc + CodeLength(subs, |subs|);
      var a' := SubsystemsExec(prog, pc, subs, |subs|, no, a, packet, hash);
      StepRet(prog, no, DROP, a', packet);
    }
  }

  /** The tag block: past it for a match or without tags, else nothing more. */
  lemma TagBlockExec(prog: seq<Ins>, pc: nat, tags: seq<CStr>, next: nat, a: Word, packet: Packet, hash: Hash)
    returns (a': Word)
    requires |packet| >= 10 && |tags| <= MAX_TAGS && CodeAt(prog, pc, TagBlock(tags, hash))
    requires next == pc + |TagBlock(tags, hash)|
    ensures Exec(prog, pc, a, packet) ==
            if tags == [] || SomeTag(tags, 0, packet, hash) then Exec(prog, next, a', packet) else DROP
  {
    a' := a;
    if tags != [] {
      CodeParts(prog, pc, TagsCode(tags, |tags|, hash), [Ret(DROP)]);
      var no := pc + 6 * |tags|;
      a' := TagsExec(prog, pc, tags, 0, pc, next, no, a, packet, hash);
      if !SomeTag(tags, 0, packet, hash) {
        StepRet(prog, no, DROP, a', packet);
      }
    }
  }

  /** The first instructions: a message without the magic passes. */
  lemma PrologueExec(prog: seq<Ins>, a: Word, packet: Packet)
    requires |packet| >= 10 && CodeAt(prog, 0, Prologue)
    ensures Exec(prog, 0, a, packet) ==
            if Field(packet, OFF_MAGIC) == UDEV_MONITOR_MAGIC then Exec(prog, 3, Field(packet, OFF_MAGIC), packet)
            else PASS
  {
    assert prog[0 + 0] == Prologue[0] && prog[0 + 1] == Prologue[1] && prog[0 + 2] == Prologue[2];
    StepLd(prog, 0, OFF_MAGIC, a, packet);
    StepJeq(prog, 1, UDEV_MONITOR_MAGIC, 3, 2, Field(packet, OFF_MAGIC), packet);
  }

  lemma AcceptedIs(tags: seq<CStr>, subs: seq<Subsystem>, packet: Packet, hash: Hash)
    requires |packet| >= 10
    ensures Accepted(tags, subs, packet, hash) <==>
            (tags == [] || SomeTag(tags, 0, packet, hash)) && (subs == [] || SomeSubsystem(subs, |subs|, packet, hash))
  {
  }

  /** From the magic on. */
  lemma BlocksExec(prog: seq<Ins>, at: nat, tags: seq<CStr>, subs: seq<Subsystem>, a: Word, packet: Packet, hash: Hash)
    requires |packet| >= 10 && |tags| <= MAX_TAGS && at == 3 + |TagBlock(tags, hash)|
    requires CodeAt(prog, 3, TagBlock(tags, hash)) && CodeAt(prog, at, SubsystemBlock(subs, hash))
    requires CodeAt(prog, at + |SubsystemBlock(subs, hash)|, [Ret(PASS)])
    ensures Exec(prog, 3, a, packet) == if Accepted(tags, subs, packet, hash) then PASS else DROP
  {
    AcceptedIs(tags, subs, packet, hash);
    var a' := TagBlockExec(prog, 3, tags, at, a, packet, hash);
    TailExec(prog, at, subs, a', packet, hash);
  }

  lemma ProgramExec(prog: seq<Ins>, at: nat, tags: seq<CStr>, subs: seq<Subsystem>, a: Word, packet: Packet, hash: Hash)
    requires |packet| >= 10 && |tags| <= MAX_TAGS && at == 3 + |TagBlock(tags, hash)| && CodeAt(prog, 0, Prologue)
    requires CodeAt(prog, 3, TagBlock(tags, hash)) && CodeAt(prog, at, SubsystemBlock(subs, hash))
    requires CodeAt(prog, at + |SubsystemBlock(subs, hash)|, [Ret(PASS)])
    ensures Exec(prog, 0, a, packet) ==
            if packet[2] == 0xfeedcafe && !Accepted(tags, subs, packet, hash) then 0 else 0xffffffff
  {
    PrologueExec(prog, a, packet);
    BlocksExec(prog, at, tags, subs, Field(packet, OFF_MAGIC), packet, hash);
  }

  /** With at most 43 tags a message passes whole exactly when the filters pass it, or when it lacks the magic. */
  lemma ProgramMeans(tags: seq<CStr>, subs: seq<Subsystem>, a: Word, packet: Packet, hash: Hash)
    requires |packet| >= 10 && |tags| <= MAX_TAGS
    ensures Exec(Program(tags, subs, hash), 0, a, packet) ==
            if packet[2] == 0xfeedcafe && !Accepted(tags, subs, packet, hash) then 0 else 0xffffffff
  {
    BlocksAt(tags, subs, hash);
    ProgramExec(Program(tags, subs, hash), 3 + |TagBlock(tags, hash)|, tags, subs, a, packet, hash);
  }

  // ---- too many tags ----

  // With the array of instructions this long there are no more tags than this.
  const MOST_TAGS: nat := 84

  /** The jump behind the block, cut to a byte: the first tag's lands where it tests the other half of a later tag. */
  lemma WrappedJump(n: nat)
    requires MAX_TAGS < n <= MOST_TAGS
    ensures (1 + (n - 1) * 6) % 256 == 6 * n - 261
  {
  }

  /** The two halves of the first tag's code, when there are too many. */
  lemma FirstHalves(prog: seq<Ins>, pc: nat, b: Bloom, n: nat)
    requires MAX_TAGS < n <= MOST_TAGS && CodeAt(prog, pc, TagCode(b, n - 1))
    ensures CodeAt(prog, pc, [Ld(OFF_BLOOM_HI), And(b.hi), Jeq(b.hi, 0, 3)])
    ensures CodeAt(prog, pc + 3, [Ld(OFF_BLOOM_LO), And(b.lo), Jeq(b.lo, 6 * n - 261, 0)])
  {
    WrappedJump(n);
    var first := [Ld(OFF_BLOOM_HI), And(b.hi), Jeq(b.hi, 0, 3)];
    var second := [Ld(OFF_BLOOM_LO), And(b.lo), Jeq(b.lo, 6 * n - 261, 0)];
    assert TagCode(b, n - 1) == first + second;
    CodeParts(prog, pc, first, second);
  }

  /** The second half of a tag whose bits there are not all set leads to the next tag. */
  lemma SecondHalfFails(prog: seq<Ins>, pc: nat, b: Bloom, more: nat, a: Word, packet: Packet) returns (a': Word)
    requires |packet| >= 10 && more <= 42 && CodeAt(prog, pc, TagCode(b, more))
    requires !BitsSet(Field(packet, OFF_BLOOM_LO), b.lo)
    ensures Exec(prog, pc + 3, a, packet) == Exec(prog, pc + 6, a', packet)
  {
    TagHalves(prog, pc, b, more);
    var hit;
    hit, a' := MaskExec(prog, pc + 3, OFF_BLOOM_LO, b.lo, pc + 7 + more * 6, pc + 6, a, packet);
  }

  /** The first tag matches; its jump lands in the code of a later tag, and this one and all behind it fail. */
  lemma FirstOfMany(prog: seq<Ins>, tags: seq<CStr>, a: Word, packet: Packet, hash: Hash)
    requires |packet| >= 10 && MAX_TAGS < |tags| <= MOST_TAGS && CodeAt(prog, 3, TagBlock(tags, hash))
    requires TagMatches(hash.bloom(tags[0]), packet)
    requires forall i :: 1 <= i < |tags| ==> !BitsSet(Field(packet, OFF_BLOOM_LO), hash.bloom(tags[i]).lo)
    ensures Exec(prog, 3, a, packet) == DROP
  {
    var n, b := |tags|, hash.bloom(tags[0]);
    var m := n - MAX_TAGS;
    CodeParts(prog, 3, TagsCode(tags, n, hash), [Ret(DROP)]);
    TagsCodeAt(prog, 3, tags, n, 0, hash);
    FirstHalves(prog, 3, b, n);
    var land, no := 6 * m + 6, 3 + 6 * n;
    var hit, a1 := MaskExec(prog, 3, OFF_BLOOM_HI, b.hi, 6, 9, a, packet);
    hit, a1 := MaskExec(prog, 6, OFF_BLOOM_LO, b.lo, land, 9, a1, packet);
    TagsCodeAt(prog, 3, tags, n, m, hash);
    a1 := SecondHalfFails(prog, 3 + 6 * m, hash.bloom(tags[m]), MAX_TAGS - 1, a1, packet);
    a1 := TagsExec(prog, 3, tags, m + 1, 3 + 6 * m + 6, no + 1, no, a1, packet, hash);
    StepRet(prog, no, DROP, a1, packet);
  }

  /** So with more than 43 tags a message can be dropped although its first tag is asked for. */
  lemma TooManyTags(tags: seq<CStr>, subs: seq<Subsystem>, a: Word, packet: Packet, hash: Hash)
    requires |packet| >= 10 && MAX_TAGS < |tags| <= MOST_TAGS && Field(packet, OFF_MAGIC) == UDEV_MONITOR_MAGIC
    requires TagMatches(hash.bloom(tags[0]), packet)
    requires forall i :: 1 <= i < |tags| ==> !BitsSet(Field(packet, OFF_BLOOM_LO), hash.bloom(tags[i]).lo)
    ensures Exec(Program(tags, subs, hash), 0, a, packet) == 0
  {
    var prog := Program(tags, subs, hash);
    BlocksAt(tags, subs, hash);
    PrologueExec(prog, a, packet);
    FirstOfMany(prog, tags, Field(packet, OFF_MAGIC), packet, hash);
  }
}
