/**
  What the socket filter of a monitor can take (lib/libudev-monitor.c): the jumps of the
  tag block fit their byte for up to 43 tags, and the instructions fit their array for
  filters that udev_monitor_filter_update() does not itself check in time.
  */
module MonitorLimits {
  import opened CStrings
  import opened MonitorFilter
  import opened Monitor

  // ---- the jump over the tag block ----

  /** The program accepts what the filters accept, whatever the strings hash to and whatever is in the message. */
  ghost predicate Faithful(tags: seq<CStr>, subs: seq<Subsystem>) {
    forall hash32: CStr -> Word, packet: Packet {:trigger Agrees(tags, subs, hash32, packet)} ::
      |packet| >= 10 && Field(packet, OFF_MAGIC) == UDEV_MONITOR_MAGIC ==> Agrees(tags, subs, hash32, packet)
  }

  ghost predicate Agrees(tags: seq<CStr>, subs: seq<Subsystem>, hash32: CStr -> Word, packet: Packet)
    requires |packet| >= 10
  {
    Exec(Program(tags, subs, Hashing(hash32)), 0, 0, packet) != 0 <==> Accepted(tags, subs, packet, Hashing(hash32))
  }

  /** Hashes that leave the first tag the lowest Bloom bit, and every other tag the one above it. */
  function Separating(first: CStr): CStr -> Word {
    (s: CStr) => if s == first then 0 else 0x41041
  }

  lemma BloomOfZero()
    ensures Bloom64(0) == 1 && Hi(Bloom64(0)) == 0 && Lo(Bloom64(0)) == 1
  {
  }

  lemma BloomOfOnes()
    ensures Bloom64(0x41041) == 2 && Hi(Bloom64(0x41041)) == 0 && Lo(Bloom64(0x41041)) == 2
  {
  }

  lemma OneBit()
    ensures BitsSet(1, 1) && !BitsSet(1, 2) && BitsSet(0, 0)
  {
  }

  /** A message for the first tag, and for the first subsystem if there is one. */
  function Telling(subs: seq<Subsystem>, hash32: CStr -> Word): (packet: Packet)
    ensures |packet| == 10
  {
    var subsystem := if subs == [] then 0 else hash32(subs[0].name);
    var devtype := if subs == [] || subs[0].devtype.Any? then 0 else hash32(subs[0].devtype.name);
    [0x6c696275, 0x64657600, UDEV_MONITOR_MAGIC, 0, 0, 0, subsystem, devtype, 0, 1]
  }

  ghost predicate AllDifferent(tags: seq<CStr>) {
    forall i, j :: 0 <= i < j < |tags| ==> tags[i] != tags[j]
  }

  lemma TooManyTagsDisagree(tags: seq<CStr>, subs: seq<Subsystem>)
    requires MAX_TAGS < |tags| <= MOST_TAGS && AllDifferent(tags)
    ensures !Faithful(tags, subs)
  {
    var hash32 := Separating(tags[0]);
    var hash, packet := Hashing(hash32), Telling(subs, hash32);
    BloomOfZero();
    BloomOfOnes();
    OneBit();
    assert hash.bloom(tags[0]) == Bloom(0, 1);
    assert TagMatches(hash.bloom(tags[0]), packet);
    forall i | 1 <= i < |tags|
      ensures !BitsSet(Field(packet, OFF_BLOOM_LO), hash.bloom(tags[i]).lo)
    {
      assert tags[i] != tags[0];
      assert hash.bloom(tags[i]) == Bloom(0, 2);
    }
    TooManyTags(tags, subs, 0, packet, hash);
    assert subs != [] ==> SubsystemMatches(subs[0], packet, hash);
    assert !Agrees(tags, subs, hash32, packet);
  }

  /**
    The tags are all different, as a list of unique names has them, and there are as many
    as the array of instructions takes: the program is faithful for up to 43 of them and
    for no more.
    */
  lemma FaithfulExactly(tags: seq<CStr>, subs: seq<Subsystem>)
    requires AllDifferent(tags) && BaseLength(tags) < INS_MAX
    ensures Faithful(tags, subs) <==> |tags| <= MAX_TAGS
  {
    if |tags| <= MAX_TAGS {
      forall hash32: CStr -> Word, packet: Packet | |packet| >= 10 && Field(packet, OFF_MAGIC) == UDEV_MONITOR_MAGIC
        ensures Agrees(tags, subs, hash32, packet)
      {
        ProgramMeans(tags, subs, 0, packet, Hashing(hash32));
      }
    } else {
      TooManyTagsDisagree(tags, subs);
    }
  }

  // ---- the array of instructions ----

  /**
    Every instruction is written inside the array: the tags leave room, and no
    subsystem's code begins below the limit and ends above the array.
    */
  ghost predicate Writable(tags: seq<CStr>, subs: seq<Subsystem>) {
    && BaseLength(tags) < INS_MAX
    && forall n :: 0 <= n < |subs| && (n == 0 || BaseLength(tags) + CodeLength(subs, n) + 1 < INS_MAX) ==>
                     BaseLength(tags) + CodeLength(subs, n + 1) <= INS_MAX
  }

  /** A subsystem whose code is begun in the array and ends outside of it. */
  ghost predicate Overruns(subs: seq<Subsystem>, base: nat, m: nat)
    requires m < |subs|
  {
    (m == 0 || base + CodeLength(subs, m) + 1 < INS_MAX) && base + CodeLength(subs, m + 1) > INS_MAX
  }

  lemma {:induction false} CodeGrows(subs: seq<Subsystem>, m: nat, n: nat)
    requires m <= n <= |subs|
    ensures CodeLength(subs, m) <= CodeLength(subs, n)
    decreases n
  {
    if m < n {
      CodeGrows(subs, m, n - 1);
    }
  }

  ghost predicate SomeOverrun(subs: seq<Subsystem>, base: nat, n: nat) {
    exists m :: n <= m < |subs| && Overruns(subs, base, m)
  }

  lemma {:induction false} WrittenBeyond(subs: seq<Subsystem>, n: nat, base: nat, i: nat)
    requires n <= |subs| && i == base + CodeLength(subs, n) && subs != [] && (n == 0 || i + 1 < INS_MAX)
    ensures WrittenFrom(subs, n, i) > INS_MAX <==> SomeOverrun(subs, base, n)
    decreases |subs| - n
  {
    if n < |subs| {
      var j := base + CodeLength(subs, n + 1);
      assert Overruns(subs, base, n) <==> j > INS_MAX;
      if j + 1 < INS_MAX {
        WrittenBeyond(subs, n + 1, base, j);
      } else {
        forall m | n < m < |subs|
          ensures !Overruns(subs, base, m)
        {
          CodeGrows(subs, n + 1, m);
        }
      }
    }
  }

  /** An instruction is written behind the end of the array exactly when the filters are not writable. */
  lemma OverrunExactly(tags: seq<CStr>, subs: seq<Subsystem>)
    ensures Written(tags, subs) > INS_MAX <==> !Writable(tags, subs)
  {
    var base := BaseLength(tags);
    if subs != [] {
      WrittenBeyond(subs, 0, base, base);
      if Writable(tags, subs) {
        forall m | 0 <= m < |subs|
          ensures !Overruns(subs, base, m)
        {
          assert base + CodeLength(subs, m) + 1 < INS_MAX || m == 0 ==> base + CodeLength(subs, m + 1) <= INS_MAX;
        }
      } else if base >= INS_MAX {
        assert Overruns(subs, base, 0);
      } else {
        var m :| 0 <= m < |subs| && (m == 0 || base + CodeLength(subs, m) + 1 < INS_MAX) &&
                 base + CodeLength(subs, m + 1) > INS_MAX;
        assert Overruns(subs, base, m);
      }
    }
  }

  /** Filters of one kind, with a devtype each. */
  lemma {:induction false} FivesLength(subs: seq<Subsystem>, n: nat)
    requires n <= |subs| && forall k :: 0 <= k < |subs| ==> subs[k].devtype.Devtype?
    ensures CodeLength(subs, n) == 5 * n
    decreases n
  {
    if n > 0 {
      FivesLength(subs, n - 1);
    }
  }

  /** Without tags, 102 subsystems with a devtype are one instruction too many, though the check is for that. */
  lemma ManySubsystems(subs: seq<Subsystem>)
    requires |subs| >= 102 && forall k :: 0 <= k < |subs| ==> subs[k].devtype.Devtype?
    ensures Written([], subs) > INS_MAX
  {
    FivesLength(subs, 101);
    FivesLength(subs, 102);
    assert Overruns(subs, 3, 101);
    WrittenBeyond(subs, 0, 3, 3);
  }

  /** Tags are not checked at all: 85 are too many. */
  lemma ManyTags(tags: seq<CStr>, subs: seq<Subsystem>)
    ensures |tags| > MOST_TAGS ==> Written(tags, subs) > INS_MAX
    ensures |tags| <= MOST_TAGS && subs == [] ==> Written(tags, subs) <= INS_MAX
  {
    OverrunExactly(tags, subs);
  }
}
