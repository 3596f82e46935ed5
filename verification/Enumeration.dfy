/**
  The order in which lib/libudev-enumerate.c lists device paths: sorted, without
  duplicates, md and dm devices at the end, and the control node of a sound card
  held back until the prefix of the card ends.
  */
module Enumeration {
  import opened CStrings

  // "/block/md", "/block/dm-", "/sound/card" and "/controlC"
  const BLOCK_MD: CStr := [47, 98, 108, 111, 99, 107, 47, 109, 100]
  const BLOCK_DM: CStr := [47, 98, 108, 111, 99, 107, 47, 100, 109, 45]
  const SOUND_CARD: CStr := [47, 115, 111, 117, 110, 100, 47, 99, 97, 114, 100]
  const CONTROL: CStr := [47, 99, 111, 110, 116, 114, 111, 108, 67]
  const SLASH: Char := 47

  // ---- comparing ----

  /** memcmp() of the first n bytes: the difference of the first two that differ. */
  function MemCmp(s: CStr, t: CStr, n: nat): int
    requires n <= |s| && n <= |t|
  {
    if n == 0 then 0
    else if s[0] != t[0] then s[0] - t[0]
    else MemCmp(s[1..], t[1..], n - 1)
  }

  /** syspath_cmp() */
  function SyspathCmp(s: CStr, t: CStr): int {
    var n := if |s| < |t| then |s| else |t|;
    var ret := MemCmp(s, t, n);
    if ret != 0 then ret else if |s| < |t| then -1 else if |s| > |t| then 1 else 0
  }

  /** It compares bytes as unsigned values, a prefix comes before what it is a prefix of. */
  lemma {:induction false} SyspathCmpIsOrder(s: CStr, t: CStr)
    ensures SyspathCmp(s, t) < 0 <==> Less(s, t)
    ensures SyspathCmp(s, t) == 0 <==> s == t
    decreases |s|
  {
    if s != [] && t != [] && s[0] == t[0] {
      SyspathCmpIsOrder(s[1..], t[1..]);
      assert s == [s[0]] + s[1..] && t == [t[0]] + t[1..];
    }
  }

  ghost predicate AtMost(s: seq<CStr>, i: nat, j: nat)
    requires i < |s| && j < |s|
  {
    !Less(s[j], s[i])
  }

  ghost predicate Below(s: seq<CStr>, i: nat, j: nat)
    requires i < |s| && j < |s|
  {
    Less(s[i], s[j])
  }

  ghost predicate Ascending(s: seq<CStr>) {
    forall i, j {:trigger AtMost(s, i, j)} :: 0 <= i < j < |s| ==> AtMost(s, i, j)
  }

  ghost predicate Strict(s: seq<CStr>) {
    forall i, j {:trigger Below(s, i, j)} :: 0 <= i < j < |s| ==> Below(s, i, j)
  }

  lemma AtMostTransitive(s: CStr, t: CStr, u: CStr)
    requires !Less(t, s) && !Less(u, t)
    ensures !Less(u, s)
  {
    LessTotal(s, t);
    LessTotal(t, u);
    if Less(u, s) && s != t && t != u {
      LessTransitive(s, t, u);
      LessTransitive(s, u, s);
      LessIrreflexive(s);
    }
  }

  // ---- sorting ----

  function Inserted(x: CStr, s: seq<CStr>): (r: seq<CStr>)
    ensures |r| == |s| + 1
  {
    if s == [] then [x]
    else
      var n := |s| - 1;
      if Less(x, s[n]) then Inserted(x, s[..n]) + [s[n]] else s + [x]
  }

  /** What qsort() makes of the paths; there is only one ascending order of them. */
  function SortedPaths(s: seq<CStr>): (r: seq<CStr>)
    ensures |r| == |s|
  {
    if s == [] then [] else Inserted(s[|s| - 1], SortedPaths(s[..|s| - 1]))
  }

  lemma {:induction false} InsertedMultiset(x: CStr, s: seq<CStr>)
    ensures multiset(Inserted(x, s)) == multiset(s) + multiset{x}
    decreases |s|
  {
    if s != [] {
      var n := |s| - 1;
      assert s == s[..n] + [s[n]];
      InsertedMultiset(x, s[..n]);
    }
  }

  lemma AscendingSnoc(s: seq<CStr>, x: CStr)
    requires Ascending(s) && forall i :: 0 <= i < |s| ==> !Less(x, s[i])
    ensures Ascending(s + [x])
  {
    forall i, j | 0 <= i < j < |s + [x]|
      ensures AtMost(s + [x], i, j)
    {
      assert j < |s| ==> AtMost(s, i, j);
    }
  }

  lemma {:induction false} InsertedAscending(x: CStr, s: seq<CStr>)
    requires Ascending(s)
    ensures Ascending(Inserted(x, s))
    decreases |s|
  {
    if s != [] {
      var n := |s| - 1;
      var init := s[..n];
      assert Ascending(init) by {
        forall i, j | 0 <= i < j < n
          ensures AtMost(init, i, j)
        {
          assert AtMost(s, i, j);
        }
      }
      forall i | 0 <= i < n
        ensures !Less(s[n], s[i])
      {
        assert AtMost(s, i, n);
      }
      if Less(x, s[n]) {
        InsertedAscending(x, init);
        InsertedMultiset(x, init);
        LessNotBack(x, s[n]);
        forall i | 0 <= i < |Inserted(x, init)|
          ensures !Less(s[n], Inserted(x, init)[i])
        {
          assert Inserted(x, init)[i] in multiset(init) + multiset{x};
        }
        AscendingSnoc(Inserted(x, init), s[n]);
      } else {
        forall i | 0 <= i < |s|
          ensures !Less(x, s[i])
        {
          if i < n {
            AtMostTransitive(s[i], s[n], x);
          }
        }
        AscendingSnoc(s, x);
      }
    }
  }

  lemma LessNotBack(s: CStr, t: CStr)
    requires Less(s, t)
    ensures !Less(t, s)
  {
    if Less(t, s) {
      LessTransitive(s, t, s);
      LessIrreflexive(s);
    }
  }

  /** Sorting loses and adds nothing, and leaves the paths in ascending order. */
  lemma {:induction false} PathsSorted(s: seq<CStr>)
    ensures Ascending(SortedPaths(s)) && multiset(SortedPaths(s)) == multiset(s)
    decreases |s|
  {
    if s != [] {
      var n := |s| - 1;
      assert s == s[..n] + [s[n]];
      PathsSorted(s[..n]);
      InsertedAscending(s[n], SortedPaths(s[..n]));
      InsertedMultiset(s[n], SortedPaths(s[..n]));
    }
  }

  // ---- skipping duplicates, setting aside what goes to the end ----

  /** Entries equal to the one kept last are skipped. */
  function Distinct(s: seq<CStr>): (d: seq<CStr>)
    ensures s != [] ==> d != [] && d[|d| - 1] == s[|s| - 1]
  {
    if s == [] then []
    else
      var n := |s| - 1;
      var d := Distinct(s[..n]);
      if n > 0 && d[|d| - 1] == s[n] then d else d + [s[n]]
  }

  lemma {:induction false} DistinctStrict(s: seq<CStr>)
    requires Ascending(s)
    ensures Strict(Distinct(s)) && forall x :: x in Distinct(s) <==> x in s
    decreases |s|
  {
    if s != [] {
      var n := |s| - 1;
      var init, d := s[..n], Distinct(s[..n]);
      assert s == init + [s[n]];
      forall i, j | 0 <= i < j < n
        ensures AtMost(init, i, j)
      {
        assert AtMost(s, i, j);
      }
      DistinctStrict(init);
      if n > 0 && d[|d| - 1] != s[n] {
        assert AtMost(s, n - 1, n);
        LessTotal(s[n - 1], s[n]);
        StrictSnoc(d, s[n]);
      }
    }
  }

  lemma StrictSnoc(d: seq<CStr>, x: CStr)
    requires Strict(d) && d != [] && Less(d[|d| - 1], x)
    ensures Strict(d + [x])
  {
    forall i, j | 0 <= i < j < |d + [x]|
      ensures Below(d + [x], i, j)
    {
      if j < |d| {
        assert Below(d, i, j);
      } else if i < |d| - 1 {
        assert Below(d, i, |d| - 1);
        LessTransitive(d[i], d[|d| - 1], x);
      }
    }
  }

  /** strstr(): where the pattern first is, from an index on; -1 if nowhere. */
  function Find(s: CStr, pattern: CStr, i: nat): (c: int)
    ensures c == -1 || i <= c <= c + |pattern| <= |s|
    decreases |s| - i
  {
    if i + |pattern| > |s| then -1
    else if s[i..i + |pattern|] == pattern then i
    else if i < |s| then Find(s, pattern, i + 1)
    else -1
  }

  /** devices_delay_end(); every path begins with "/sys", which is skipped. */
  predicate DelayEnd(path: CStr) {
    var rest := if |path| >= 4 then path[4..] else [];
    Find(rest, BLOCK_MD, 0) >= 0 || Find(rest, BLOCK_DM, 0) >= 0
  }

  function Delayed(s: seq<CStr>): seq<CStr> {
    if s == [] then []
    else Delayed(s[..|s| - 1]) + if DelayEnd(s[|s| - 1]) then [s[|s| - 1]] else []
  }

  function Ordinary(s: seq<CStr>): seq<CStr> {
    if s == [] then []
    else Ordinary(s[..|s| - 1]) + if DelayEnd(s[|s| - 1]) then [] else [s[|s| - 1]]
  }

  /** The two parts of a strictly sorted list: each sorted, and together the list. */
  lemma {:induction false} Parted(s: seq<CStr>)
    requires Strict(s)
    ensures Strict(Delayed(s)) && forall x :: x in Delayed(s) <==> x in s && DelayEnd(x)
    ensures Strict(Ordinary(s)) && forall x :: x in Ordinary(s) <==> x in s && !DelayEnd(x)
    decreases |s|
  {
    if s != [] {
      var n := |s| - 1;
      var init := s[..n];
      assert s == init + [s[n]];
      forall i, j | 0 <= i < j < n
        ensures Below(init, i, j)
      {
        assert Below(s, i, j);
      }
      Parted(init);
      forall x | x in init
        ensures Less(x, s[n])
      {
        var i :| 0 <= i < n && init[i] == x;
        assert Below(s, i, n);
      }
      if DelayEnd(s[n]) {
        StrictAbove(Delayed(init), s[n]);
        assert Ordinary(s) == Ordinary(init);
      } else {
        StrictAbove(Ordinary(init), s[n]);
        assert Delayed(s) == Delayed(init);
      }
    }
  }

  lemma StrictAbove(d: seq<CStr>, x: CStr)
    requires Strict(d) && forall y :: y in d ==> Less(y, x)
    ensures Strict(d + [x])
  {
    if d != [] {
      StrictSnoc(d, x);
    }
  }

  // ---- holding control nodes back ----

  /** strcspn() with "/": where the next slash is. */
  function SlashFrom(s: CStr, i: nat): (e: nat)
    requires i <= |s|
    ensures i <= e <= |s| && (e < |s| ==> s[e] == SLASH)
    ensures forall k :: i <= k < e ==> s[k] != SLASH
    decreases |s| - i
  {
    if i == |s| || s[i] == SLASH then i else SlashFrom(s, i + 1)
  }

  /** devices_delay_later(): for the control node of a sound card the length of what its card's paths share, else 0. */
  function DelayLater(path: CStr): (n: nat)
    ensures n <= |path|
  {
    var c := Find(path, SOUND_CARD, 0);
    if c < 0 then 0
    else
      var e := SlashFrom(path, c + |SOUND_CARD|);
      if IsPrefix(CONTROL, path[e..]) then e + 1 else 0
  }

  /** strneq() with the shared length of a control node. */
  predicate Shares(control: CStr, path: CStr) {
    IsPrefix(Head(control, DelayLater(control)), path)
  }

  /** The control node that is held back after n paths, -1 if there is none: one at a time. */
  function Pending(paths: seq<CStr>, n: nat): (h: int)
    requires n <= |paths|
    ensures -1 <= h < n
  {
    if n == 0 then -1
    else
      var h := Pending(paths, n - 1);
      if h == -1 then if DelayLater(paths[n - 1]) > 0 then n - 1 else -1
      else if Shares(paths[h], paths[n - 1]) then h else -1
  }

  /** What n paths have put on the list. */
  function Listed(paths: seq<CStr>, n: nat): (list: seq<CStr>)
    requires n <= |paths|
  {
    if n == 0 then []
    else
      var h, list := Pending(paths, n - 1), Listed(paths, n - 1);
      if h == -1 then if DelayLater(paths[n - 1]) > 0 then list else list + [paths[n - 1]]
      else if Shares(paths[h], paths[n - 1]) then list + [paths[n - 1]]
      else list + [paths[h]] + [paths[n - 1]]
  }

  function Arranged(paths: seq<CStr>): seq<CStr> {
    Listed(paths, |paths|) + if Pending(paths, |paths|) >= 0 then [paths[Pending(paths, |paths|)]] else []
  }

  /** udev_enumerate_get_list_entry() lists these. */
  function Listing(paths: seq<CStr>): seq<CStr> {
    var d := Distinct(SortedPaths(paths));
    Arranged(Ordinary(d)) + Delayed(d)
  }

  /** More paths change nothing of what was done for those before. */
  lemma {:induction false} SameSoFar(paths: seq<CStr>, x: CStr, n: nat)
    requires n <= |paths|
    ensures Pending(paths + [x], n) == Pending(paths, n) && Listed(paths + [x], n) == Listed(paths, n)
    decreases n
  {
    if n > 0 {
      SameSoFar(paths, x, n - 1);
    }
  }

  // ---- where a path ends up ----

  /** A control node that meets no other one being held back. */
  predicate HeldBack(paths: seq<CStr>, i: nat)
    requires i < |paths|
  {
    Pending(paths, i) == -1 && DelayLater(paths[i]) > 0
  }

  /** The end of the paths that share the prefix of the i-th, from the j-th on. */
  function RunEnd(paths: seq<CStr>, i: nat, j: nat): (e: nat)
    requires i < j <= |paths|
    ensures j <= e <= |paths|
    ensures forall k :: j <= k < e ==> Shares(paths[i], paths[k])
    ensures e < |paths| ==> !Shares(paths[i], paths[e])
    decreases |paths| - j
  {
    if j < |paths| && Shares(paths[i], paths[j]) then RunEnd(paths, i, j + 1) else j
  }

  /** The place on the list: a held node comes last of its run, and the run moves up by one. */
  function Slot(paths: seq<CStr>, i: nat): (k: int)
    requires i < |paths|
  {
    if HeldBack(paths, i) then RunEnd(paths, i, i + 1) - 1
    else if Pending(paths, i) >= 0 && Shares(paths[Pending(paths, i)], paths[i]) then i - 1
    else i
  }

  /** A pending node was held back, and all paths since share its prefix. */
  lemma {:induction false} PendingRun(paths: seq<CStr>, n: nat)
    requires n <= |paths| && Pending(paths, n) >= 0
    ensures HeldBack(paths, Pending(paths, n))
    ensures forall k :: Pending(paths, n) < k < n ==> Shares(paths[Pending(paths, n)], paths[k])
    ensures RunEnd(paths, Pending(paths, n), Pending(paths, n) + 1) >= n
    decreases n
  {
    var h := Pending(paths, n);
    if Pending(paths, n - 1) >= 0 {
      PendingRun(paths, n - 1);
    }
    var e := RunEnd(paths, h, h + 1);
    assert e < n ==> h < e;
  }

  /** A node held back stays so to the end of its run. */
  lemma {:induction false} RunPending(paths: seq<CStr>, i: nat, n: nat)
    requires i < n <= |paths| && HeldBack(paths, i) && n <= RunEnd(paths, i, i + 1)
    ensures Pending(paths, n) == i
    decreases n
  {
    if n > i + 1 {
      RunPending(paths, i, n - 1);
    }
  }

  ghost predicate InSlot(paths: seq<CStr>, list: seq<CStr>, i: nat)
    requires i < |paths|
  {
    0 <= Slot(paths, i) < |list| && list[Slot(paths, i)] == paths[i]
  }

  lemma {:induction false} ListedLength(paths: seq<CStr>, n: nat)
    requires n <= |paths|
    ensures |Listed(paths, n)| == n - if Pending(paths, n) >= 0 then 1 else 0
    decreases n
  {
    if n > 0 {
      ListedLength(paths, n - 1);
    }
  }

  /** What a step puts on the list is in its place there. */
  lemma SlotStep(paths: seq<CStr>, n: nat, i: nat)
    requires n < |paths| && i <= n && i != Pending(paths, n + 1)
    requires i < n && i != Pending(paths, n) ==> InSlot(paths, Listed(paths, n), i)
    ensures InSlot(paths, Listed(paths, n + 1), i)
  {
    ListedLength(paths, n);
    if Pending(paths, n) >= 0 {
      PendingRun(paths, n);
    }
  }

  lemma {:induction false} ListedSlots(paths: seq<CStr>, n: nat)
    requires n <= |paths|
    ensures forall i {:trigger InSlot(paths, Listed(paths, n), i)} ::
              0 <= i < n && i != Pending(paths, n) ==> InSlot(paths, Listed(paths, n), i)
    decreases n
  {
    if n > 0 {
      ListedSlots(paths, n - 1);
      forall i | 0 <= i < n && i != Pending(paths, n)
        ensures InSlot(paths, Listed(paths, n), i)
      {
        SlotStep(paths, n - 1, i);
      }
    }
  }

  /** Every path is in its place. */
  lemma ArrangedSlots(paths: seq<CStr>)
    ensures |Arranged(paths)| == |paths|
    ensures forall i {:trigger Slot(paths, i)} ::
              0 <= i < |paths| ==> 0 <= Slot(paths, i) < |paths| && Arranged(paths)[Slot(paths, i)] == paths[i]
  {
    var n := |paths|;
    ListedLength(paths, n);
    ListedSlots(paths, n);
    if Pending(paths, n) >= 0 {
      PendingRun(paths, n);
    }
    forall i | 0 <= i < n
      ensures 0 <= Slot(paths, i) < |paths| && Arranged(paths)[Slot(paths, i)] == paths[i]
    {
      assert i != Pending(paths, n) ==> InSlot(paths, Listed(paths, n), i);
    }
  }

  /** What shares a prefix is without gaps in a sorted list. */
  lemma {:induction false} Interval(p: CStr, x: CStr, y: CStr, z: CStr)
    requires IsPrefix(p, x) && IsPrefix(p, z) && Less(x, y) && Less(y, z)
    ensures IsPrefix(p, y)
    decreases |p|
  {
    if p != [] {
      assert p[0] == Head(x, |p|)[0] && p[0] == Head(z, |p|)[0];
      assert p[1..] == Head(x[1..], |p| - 1) && p[1..] == Head(z[1..], |p| - 1);
      Interval(p[1..], x[1..], y[1..], z[1..]);
      assert Head(y, |p|) == [y[0]] + Head(y[1..], |p| - 1);
      assert p == [p[0]] + p[1..];
    }
  }

  lemma {:induction false} SharedInRun(paths: seq<CStr>, i: nat, j: nat)
    requires Strict(paths) && i < j < |paths| && Shares(paths[i], paths[j])
    ensures j < RunEnd(paths, i, i + 1)
  {
    var e := RunEnd(paths, i, i + 1);
    if e < j {
      assert Below(paths, i, e) && Below(paths, e, j);
      Interval(Head(paths[i], DelayLater(paths[i])), paths[i], paths[e], paths[j]);
    }
  }

  /**
    The order of the list: of two paths the smaller one comes first, except that a
    control node held back comes after all that share its prefix.
    */
  lemma SlotOrder(paths: seq<CStr>, i: nat, j: nat)
    requires Strict(paths) && i < j < |paths|
    ensures Slot(paths, i) != Slot(paths, j)
    ensures Slot(paths, j) < Slot(paths, i) <==> HeldBack(paths, i) && Shares(paths[i], paths[j])
  {
    if HeldBack(paths, i) {
      if Shares(paths[i], paths[j]) {
        SharedInRun(paths, i, j);
        RunPending(paths, i, j);
      } else {
        var e := RunEnd(paths, i, i + 1);
        RunPending(paths, i, e);
        assert e <= j;
      }
    } else if Pending(paths, i) < 0 || !Shares(paths[Pending(paths, i)], paths[i]) {
      assert Pending(paths, i + 1) == -1;
    }
  }

  // ---- the whole list ----

  function HeldPart(paths: seq<CStr>, n: nat): seq<CStr>
    requires n <= |paths|
  {
    if Pending(paths, n) >= 0 then [paths[Pending(paths, n)]] else []
  }

  function Occurs(s: seq<CStr>, x: CStr): nat {
    if s == [] then 0 else Occurs(s[..|s| - 1], x) + if s[|s| - 1] == x then 1 else 0
  }

  lemma {:induction false} OccursIs(s: seq<CStr>, x: CStr)
    ensures Occurs(s, x) == multiset(s)[x]
    decreases |s|
  {
    if s != [] {
      assert s == s[..|s| - 1] + [s[|s| - 1]];
      OccursIs(s[..|s| - 1], x);
    }
  }

  lemma OccursMore(s: seq<CStr>, y: CStr, x: CStr)
    ensures Occurs(s + [y], x) == Occurs(s, x) + if y == x then 1 else 0
  {
    assert (s + [y])[..|s|] == s;
  }

  lemma OccursSingle(y: CStr, x: CStr)
    ensures Occurs([y], x) == if y == x then 1 else 0
  {
    assert [] + [y] == [y];
    OccursMore([], y, x);
  }

  /** How often a path is on the list, or held back. */
  function Count(paths: seq<CStr>, n: nat, x: CStr): nat
    requires n <= |paths|
  {
    Occurs(Listed(paths, n), x) + Occurs(HeldPart(paths, n), x)
  }

  /** A step puts one path more on the list, or in front of it. */
  lemma CountStep(paths: seq<CStr>, n: nat, x: CStr)
    requires 0 < n <= |paths|
    ensures Count(paths, n, x) == Count(paths, n - 1, x) + if paths[n - 1] == x then 1 else 0
  {
    var h, list, y := Pending(paths, n - 1), Listed(paths, n - 1), paths[n - 1];
    OccursMore(list, y, x);
    OccursSingle(y, x);
    if h >= 0 {
      OccursMore(list, paths[h], x);
      OccursMore(list + [paths[h]], y, x);
      OccursSingle(paths[h], x);
    }
  }

  lemma {:induction false} Counted(paths: seq<CStr>, n: nat, x: CStr)
    requires n <= |paths|
    ensures Count(paths, n, x) == Occurs(paths[..n], x)
    decreases n
  {
    if n > 0 {
      Counted(paths, n - 1, x);
      CountStep(paths, n, x);
      OccursNext(paths, n, x);
    }
  }

  lemma OccursNext(paths: seq<CStr>, n: nat, x: CStr)
    requires 0 < n <= |paths|
    ensures Occurs(paths[..n], x) == Occurs(paths[..n - 1], x) + if paths[n - 1] == x then 1 else 0
  {
    OccursMore(paths[..n - 1], paths[n - 1], x);
    assert paths[..n] == paths[..n - 1] + [paths[n - 1]];
  }

  /** Arranging loses and adds nothing. */
  lemma ArrangedMultiset(paths: seq<CStr>, x: CStr)
    ensures multiset(Arranged(paths))[x] == multiset(paths)[x]
  {
    var n := |paths|;
    Counted(paths, n, x);
    assert paths[..n] == paths;
    OccursIs(paths, x);
    OccursIs(Listed(paths, n), x);
    OccursIs(HeldPart(paths, n), x);
    assert Arranged(paths) == Listed(paths, n) + HeldPart(paths, n);
  }

  lemma {:induction false} StrictOnce(s: seq<CStr>, x: CStr)
    requires Strict(s)
    ensures multiset(s)[x] == if x in s then 1 else 0
    decreases |s|
  {
    if s != [] {
      var n := |s| - 1;
      var init := s[..n];
      assert s == init + [s[n]];
      forall i, j | 0 <= i < j < n
        ensures Below(init, i, j)
      {
        assert Below(s, i, j);
      }
      StrictOnce(init, x);
      if s[n] in init {
        var i :| 0 <= i < n && init[i] == s[n];
        assert Below(s, i, n);
        LessIrreflexive(s[n]);
      }
    }
  }

  /** The list has every path that was added, once. */
  lemma EachOnce(paths: seq<CStr>, x: CStr)
    ensures multiset(Listing(paths))[x] == if x in paths then 1 else 0
  {
    var d := Distinct(SortedPaths(paths));
    var kept := Ordinary(d);
    PathsSorted(paths);
    assert x in paths <==> x in multiset(paths);
    assert x in SortedPaths(paths) <==> x in multiset(SortedPaths(paths));
    DistinctStrict(SortedPaths(paths));
    Parted(d);
    ArrangedMultiset(kept, x);
    StrictOnce(kept, x);
    StrictOnce(Delayed(d), x);
  }

  ghost predicate Precedes(list: seq<CStr>, x: CStr, y: CStr) {
    exists a, b :: 0 <= a < b < |list| && list[a] == x && list[b] == y
  }

  /** A control node among the paths not delayed to the end that is held back. */
  ghost predicate IsHeld(kept: seq<CStr>, x: CStr) {
    exists i :: 0 <= i < |kept| && kept[i] == x && HeldBack(kept, i)
  }

  lemma Twice(list: seq<CStr>, a: nat, b: nat)
    requires a < b < |list| && list[a] == list[b]
    ensures multiset(list)[list[a]] >= 2
  {
    assert list == list[..b] + [list[b]] + list[b + 1..];
    assert list[..b][a] in multiset(list[..b]);
  }

  lemma OneWay(paths: seq<CStr>, x: CStr, y: CStr, a: nat, b: nat)
    requires a < b < |Listing(paths)| && Listing(paths)[a] == x && Listing(paths)[b] == y && x in paths && y in paths
    ensures Precedes(Listing(paths), x, y) && !Precedes(Listing(paths), y, x)
  {
    var list := Listing(paths);
    EachOnce(paths, x);
    EachOnce(paths, y);
    if Precedes(list, y, x) {
      var c, e :| 0 <= c < e < |list| && list[c] == y && list[e] == x;
      if a != e {
        Twice(list, if a < e then a else e, if a < e then e else a);
      } else {
        Twice(list, c, b);
      }
    }
  }

  /** When the smaller of two paths comes second. */
  ghost predicate Swapped(kept: seq<CStr>, x: CStr, y: CStr) {
    !DelayEnd(y) && (DelayEnd(x) || (IsHeld(kept, x) && Shares(x, y)))
  }

  /** Each path is in one of the two parts. */
  lemma InParts(paths: seq<CStr>, x: CStr)
    requires x in paths
    ensures var d := Distinct(SortedPaths(paths));
            && Strict(Ordinary(d)) && Strict(Delayed(d))
            && (if DelayEnd(x) then x in Delayed(d) else x in Ordinary(d))
  {
    PathsSorted(paths);
    assert x in multiset(paths) && x in multiset(SortedPaths(paths));
    DistinctStrict(SortedPaths(paths));
    Parted(Distinct(SortedPaths(paths)));
  }

  lemma ListingAt(arranged: seq<CStr>, delayed: seq<CStr>, i: nat)
    ensures i < |arranged| ==> (arranged + delayed)[i] == arranged[i]
    ensures i < |delayed| ==> (arranged + delayed)[|arranged| + i] == delayed[i]
  {
  }

  lemma PlaceOf(paths: seq<CStr>, x: CStr) returns (i: nat, a: nat)
    requires x in paths
    ensures var d := Distinct(SortedPaths(paths));
            && Strict(Ordinary(d)) && Strict(Delayed(d))
            && a < |Listing(paths)| && Listing(paths)[a] == x
            && |Arranged(Ordinary(d))| == |Ordinary(d)|
            && if DelayEnd(x) then i < |Delayed(d)| && Delayed(d)[i] == x && a == |Ordinary(d)| + i
               else i < |Ordinary(d)| && Ordinary(d)[i] == x && a == Slot(Ordinary(d), i) < |Ordinary(d)|
  {
    var d := Distinct(SortedPaths(paths));
    var kept, delayed := Ordinary(d), Delayed(d);
    InParts(paths, x);
    ArrangedSlots(kept);
    if DelayEnd(x) {
      i :| 0 <= i < |delayed| && delayed[i] == x;
      a := |kept| + i;
      ListingAt(Arranged(kept), delayed, i);
    } else {
      i :| 0 <= i < |kept| && kept[i] == x;
      a := Slot(kept, i);
      ListingAt(Arranged(kept), delayed, a);
    }
  }

  /** In a strictly sorted list the smaller path has the smaller index. */
  lemma IndexOrder(s: seq<CStr>, i: nat, j: nat)
    requires Strict(s) && i < |s| && j < |s| && Less(s[i], s[j])
    ensures i < j
  {
    LessIrreflexive(s[i]);
    if j < i {
      assert Below(s, j, i);
      LessNotBack(s[j], s[i]);
    }
  }

  /**
    The order of the list, for any two paths: the smaller one comes first, except that
    md and dm devices come after all others, and that a control node held back comes
    after what shares the prefix of its card.
    */
  lemma ListingOrder(paths: seq<CStr>, x: CStr, y: CStr)
    requires x in paths && y in paths && Less(x, y)
    ensures var swapped := Swapped(Ordinary(Distinct(SortedPaths(paths))), x, y);
            && (Precedes(Listing(paths), x, y) <==> !swapped)
            && (Precedes(Listing(paths), y, x) <==> swapped)
  {
    var kept := Ordinary(Distinct(SortedPaths(paths)));
    var i, a := PlaceOf(paths, x);
    var j, b := PlaceOf(paths, y);
    if DelayEnd(x) && DelayEnd(y) {
      IndexOrder(Delayed(Distinct(SortedPaths(paths))), i, j);
    } else if !DelayEnd(x) && !DelayEnd(y) {
      IndexOrder(kept, i, j);
      SlotOrder(kept, i, j);
      HeldIndex(kept, i);
    }
    if a < b {
      OneWay(paths, x, y, a, b);
    } else {
      OneWay(paths, y, x, b, a);
    }
  }

  lemma HeldIndex(kept: seq<CStr>, i: nat)
    requires Strict(kept) && i < |kept|
    ensures IsHeld(kept, kept[i]) <==> HeldBack(kept, i)
  {
    if IsHeld(kept, kept[i]) {
      var k :| 0 <= k < |kept| && kept[k] == kept[i] && HeldBack(kept, k);
      LessIrreflexive(kept[i]);
      assert k < i ==> Below(kept, k, i);
      assert i < k ==> Below(kept, i, k);
    }
  }

  // ---- control nodes ----

  /** A control node held back comes after everything that shares the prefix of its card. */
  lemma HeldLast(paths: seq<CStr>, x: CStr, y: CStr)
    requires x in paths && y in paths && x != y && !DelayEnd(x) && !DelayEnd(y)
    requires IsHeld(Ordinary(Distinct(SortedPaths(paths))), x) && Shares(x, y)
    ensures Precedes(Listing(paths), y, x)
  {
    var kept := Ordinary(Distinct(SortedPaths(paths)));
    LessTotal(x, y);
    if Less(x, y) {
      ListingOrder(paths, x, y);
    } else {
      ListingOrder(paths, y, x);
      var i, _ := PlaceOf(paths, y);
      var j, _ := PlaceOf(paths, x);
      IndexOrder(kept, i, j);
      HeldIndex(kept, i);
      HeldIndex(kept, j);
      if Swapped(kept, y, x) {
        SharedInRun(kept, i, j);
        RunPending(kept, i, j);
        assert false;
      }
    }
  }

  /** A path that ends what is held back, and what is behind it up to the next control node, leave nothing pending. */
  lemma {:induction false} NothingPending(kept: seq<CStr>, i: nat, n: nat)
    requires i < n <= |kept| && forall k :: i <= k < n ==> DelayLater(kept[k]) == 0
    requires Pending(kept, i) >= 0 ==> !Shares(kept[Pending(kept, i)], kept[i])
    ensures Pending(kept, n) == -1
    decreases n
  {
    if n > i + 1 {
      NothingPending(kept, i, n - 1);
    }
  }

  /** What the first slash behind "/sound/card" ends has no further one behind it. */
  lemma {:induction false} SlashFromPrefix(p: CStr, s: CStr, i: nat)
    requires IsPrefix(p, s) && i <= |p|
    ensures SlashFrom(s, i) < |p| ==> SlashFrom(p, i) == SlashFrom(s, i)
    ensures SlashFrom(p, i) < |p| ==> SlashFrom(p, i) == SlashFrom(s, i)
    decreases |p| - i
  {
    if i < |p| {
      HeadIndex(s, |p|, i);
      SlashFromPrefix(p, s, i + 1);
    }
  }

  lemma {:induction false} FindInPrefix(p: CStr, s: CStr, pattern: CStr, i: nat)
    requires IsPrefix(p, s) && i <= |p|
    ensures Find(p, pattern, i) >= 0 ==> Find(s, pattern, i) == Find(p, pattern, i)
    ensures 0 <= Find(s, pattern, i) && Find(s, pattern, i) + |pattern| <= |p| ==>
              Find(p, pattern, i) == Find(s, pattern, i)
    decreases |p| - i
  {
    if i + |pattern| <= |p| {
      assert p[i..i + |pattern|] == s[i..i + |pattern|] by {
        assert Head(s, |p|)[i..i + |pattern|] == s[i..i + |pattern|];
      }
      if i < |p| {
        FindInPrefix(p, s, pattern, i + 1);
      }
    }
  }

  /** What a control node shares with its card is found from those characters alone. */
  lemma SharedPrefix(control: CStr, path: CStr)
    requires DelayLater(control) > 0 && Shares(control, path)
    ensures var c := Find(control, SOUND_CARD, 0);
            && 0 <= c && Find(path, SOUND_CARD, 0) == c
            && c + |SOUND_CARD| <= |path| && SlashFrom(path, c + |SOUND_CARD|) == DelayLater(control) - 1
            && DelayLater(control) - 1 < |path|
  {
    var n, c := DelayLater(control), Find(control, SOUND_CARD, 0);
    var p := Head(control, n);
    assert IsPrefix(p, control);
    FindInPrefix(p, control, SOUND_CARD, 0);
    FindInPrefix(p, path, SOUND_CARD, 0);
    SlashFromPrefix(p, control, c + |SOUND_CARD|);
    SlashFromPrefix(p, path, c + |SOUND_CARD|);
  }

  /** The directory of the card itself shares no control node's prefix: the slash at its end is missing. */
  lemma CardDirectory(card: CStr, control: CStr, other: CStr)
    requires DelayLater(control) > 0 && card == Head(control, DelayLater(control) - 1) && DelayLater(other) > 0
    ensures !Shares(other, card) && DelayLater(card) == 0
  {
    var c := Find(control, SOUND_CARD, 0);
    assert IsPrefix(card, control);
    FindInPrefix(card, control, SOUND_CARD, 0);
    SlashFromPrefix(card, control, c + |SOUND_CARD|);
    assert SlashFrom(card, c + |SOUND_CARD|) == |card|;
    if Shares(other, card) {
      SharedPrefix(other, card);
      assert false;
    }
  }

  /**
    A control node is held back, and so comes last of its card, if the card itself is
    listed and no other control node is between the two.
    */
  lemma HeldBehindCard(kept: seq<CStr>, i: nat, j: nat)
    requires i < j < |kept| && DelayLater(kept[j]) > 0 && kept[i] == Head(kept[j], DelayLater(kept[j]) - 1)
    requires forall k :: i < k < j ==> DelayLater(kept[k]) == 0
    ensures HeldBack(kept, j)
  {
    CardDirectory(kept[i], kept[j], kept[j]);
    if Pending(kept, i) >= 0 {
      PendingRun(kept, i);
      CardDirectory(kept[i], kept[j], kept[Pending(kept, i)]);
    }
    NothingPending(kept, i, j);
  }

  // ---- the order with the bytes written out ----

  predicate HasAt(path: CStr, i: nat, text: CStr) {
    i + |text| <= |path| && path[i..i + |text|] == text
  }

  /** strstr() gives the first place. */
  lemma {:induction false} FindFirst(s: CStr, pattern: CStr, i: nat)
    requires i <= |s|
    ensures var c := Find(s, pattern, i);
            if c >= 0 then i <= c && HasAt(s, c, pattern) && forall k :: i <= k < c ==> !HasAt(s, k, pattern)
            else forall k :: i <= k ==> !HasAt(s, k, pattern)
    decreases |s| - i
  {
    if i + |pattern| <= |s| && s[i..i + |pattern|] != pattern && i < |s| {
      FindFirst(s, pattern, i + 1);
    }
  }

  /** Behind its first four bytes the path has "/block/md" or "/block/dm-". */
  ghost predicate EndName(path: CStr) {
    exists i: nat :: i >= 4 && (HasAt(path, i, [47, 98, 108, 111, 99, 107, 47, 109, 100]) ||
                                HasAt(path, i, [47, 98, 108, 111, 99, 107, 47, 100, 109, 45]))
  }

  lemma FoundBehind(path: CStr, text: CStr)
    requires |path| >= 4
    ensures Find(path[4..], text, 0) >= 0 <==> exists i: nat :: i >= 4 && HasAt(path, i, text)
  {
    FindFirst(path[4..], text, 0);
    var c := Find(path[4..], text, 0);
    if c >= 0 {
      assert HasAt(path, c + 4, text);
    }
    forall i: nat | i >= 4 && HasAt(path, i, text)
      ensures HasAt(path[4..], i - 4, text)
    {
    }
  }

  /** devices_delay_end() */
  lemma DelayEndMeans(path: CStr)
    ensures DelayEnd(path) <==> EndName(path)
  {
    if |path| >= 4 {
      FoundBehind(path, [47, 98, 108, 111, 99, 107, 47, 109, 100]);
      FoundBehind(path, [47, 98, 108, 111, 99, 107, 47, 100, 109, 45]);
    }
  }

  /** The first "/sound/card" is at c, the next slash behind it at e, and there is "/controlC". */
  ghost predicate ControlAt(path: CStr, c: nat, e: nat) {
    && HasAt(path, c, [47, 115, 111, 117, 110, 100, 47, 99, 97, 114, 100])
    && (forall k :: 0 <= k < c ==> !HasAt(path, k, [47, 115, 111, 117, 110, 100, 47, 99, 97, 114, 100]))
    && c + 11 <= e && (forall k :: c + 11 <= k < e && k < |path| ==> path[k] != 47)
    && HasAt(path, e, [47, 99, 111, 110, 116, 114, 111, 108, 67])
  }

  lemma SlashAt(path: CStr, i: nat, e: nat)
    requires i <= e < |path| && path[e] == 47 && forall k :: i <= k < e ==> path[k] != 47
    ensures SlashFrom(path, i) == e
  {
  }

  lemma HeadAt(path: CStr, e: nat, text: CStr)
    requires e <= |path|
    ensures IsPrefix(text, path[e..]) <==> HasAt(path, e, text)
  {
    if e + |text| <= |path| {
      assert path[e..][..|text|] == path[e..e + |text|];
    }
  }

  /** devices_delay_later() */
  lemma DelayLaterMeans(path: CStr, c: nat, e: nat)
    requires ControlAt(path, c, e)
    ensures DelayLater(path) == e + 1
  {
    FindFirst(path, SOUND_CARD, 0);
    assert path[e] == path[e..e + 9][0] == 47;
    SlashAt(path, c + 11, e);
    HeadAt(path, e, CONTROL);
  }

  lemma ControlFound(path: CStr) returns (c: nat, e: nat)
    requires DelayLater(path) > 0
    ensures ControlAt(path, c, e) && DelayLater(path) == e + 1
  {
    FindFirst(path, SOUND_CARD, 0);
    c := Find(path, SOUND_CARD, 0);
    e := SlashFrom(path, c + |SOUND_CARD|);
    HeadAt(path, e, CONTROL);
  }

  /** The first path is a control node, and the second is below the same card. */
  ghost predicate SameCard(control: CStr, path: CStr) {
    exists c: nat, e: nat :: ControlAt(control, c, e) && e < |path| && path[..e + 1] == control[..e + 1]
  }

  lemma SharesMeans(control: CStr, path: CStr)
    ensures DelayLater(control) > 0 && Shares(control, path) ==> SameCard(control, path)
  {
    if DelayLater(control) > 0 && Shares(control, path) {
      var c, e := ControlFound(control);
      assert Head(path, e + 1) == path[..e + 1] && Head(control, e + 1) == control[..e + 1];
    }
  }

  /** A control node below a card that is listed too; no other control node is between the two. */
  ghost predicate BehindCard(paths: seq<CStr>, control: CStr, c: nat, e: nat) {
    && ControlAt(control, c, e) && e < |control| && control in paths && control[..e] in paths
    && forall z, d: nat, f: nat :: z in paths && ControlAt(z, d, f) && Less(control[..e], z) ==> !Less(z, control)
  }

  /** The second path is another one below the same card. */
  ghost predicate BelowCard(paths: seq<CStr>, control: CStr, c: nat, e: nat, y: CStr) {
    && BehindCard(paths, control, c, e) && !EndName(control)
    && y in paths && y != control && !EndName(y) && e < |y| && y[..e + 1] == control[..e + 1]
  }

  /** md and dm devices come behind all others. */
  ghost predicate EndLast(paths: seq<CStr>, list: seq<CStr>) {
    forall x, y :: x in paths && y in paths && EndName(x) && !EndName(y) ==> Precedes(list, y, x)
  }

  /** Otherwise the smaller path comes first, unless it is a control node and the other one is below its card. */
  ghost predicate SmallerFirst(paths: seq<CStr>, list: seq<CStr>) {
    forall x, y :: x in paths && y in paths && Less(x, y) && (EndName(x) <==> EndName(y)) && !SameCard(x, y) ==>
                     Precedes(list, x, y)
  }

  /** A control node with its card listed comes behind whatever else is below the card. */
  ghost predicate ControlLast(paths: seq<CStr>, list: seq<CStr>) {
    forall x, c: nat, e: nat, y {:trigger BelowCard(paths, x, c, e, y)} ::
      BelowCard(paths, x, c, e, y) ==> Precedes(list, y, x)
  }

  /** Every path is listed once, nothing else is, and in the order said. */
  ghost predicate InListOrder(paths: seq<CStr>, list: seq<CStr>) {
    && (forall x :: multiset(list)[x] == if x in paths then 1 else 0)
    && EndLast(paths, list) && SmallerFirst(paths, list) && ControlLast(paths, list)
  }

  lemma EndsLast(paths: seq<CStr>, x: CStr, y: CStr)
    requires x in paths && y in paths && EndName(x) && !EndName(y)
    ensures Precedes(Listing(paths), y, x)
  {
    DelayEndMeans(x);
    DelayEndMeans(y);
    LessTotal(x, y);
    if Less(x, y) {
      ListingOrder(paths, x, y);
    } else {
      ListingOrder(paths, y, x);
    }
  }

  lemma SmallerComesFirst(paths: seq<CStr>, x: CStr, y: CStr)
    requires x in paths && y in paths && Less(x, y) && (EndName(x) <==> EndName(y)) && !SameCard(x, y)
    ensures Precedes(Listing(paths), x, y)
  {
    DelayEndMeans(x);
    DelayEndMeans(y);
    SharesMeans(x, y);
    ListingOrder(paths, x, y);
  }

  lemma {:induction false} PrefixLess(p: CStr, s: CStr)
    requires IsPrefix(p, s) && p != s
    ensures Less(p, s)
    decreases |p|
  {
    if p != [] {
      assert p[0] == Head(s, |p|)[0];
      assert p[1..] == Head(s[1..], |p| - 1);
      assert p == [p[0]] + p[1..] && s == [s[0]] + s[1..];
      PrefixLess(p[1..], s[1..]);
    }
  }

  lemma HasAtMore(path: CStr, e: nat, i: nat, text: CStr)
    requires e <= |path| && HasAt(path[..e], i, text)
    ensures HasAt(path, i, text)
  {
    assert path[..e][i..i + |text|] == path[i..i + |text|];
  }

  /** What names a block device in the first part of a path names it in all of it. */
  lemma EndNameMore(path: CStr, e: nat)
    requires e <= |path| && EndName(path[..e])
    ensures EndName(path)
  {
    var md: CStr, dm: CStr := [47, 98, 108, 111, 99, 107, 47, 109, 100], [47, 98, 108, 111, 99, 107, 47, 100, 109, 45];
    var i: nat :| i >= 4 && (HasAt(path[..e], i, md) || HasAt(path[..e], i, dm));
    if HasAt(path[..e], i, md) {
      HasAtMore(path, e, i, md);
    } else {
      HasAtMore(path, e, i, dm);
    }
  }

  /** Between the card and its control node there is no other control node. */
  lemma NoneBetween(paths: seq<CStr>, kept: seq<CStr>, control: CStr, c: nat, e: nat, i: nat, j: nat, k: nat)
    requires Strict(kept) && i < k < j < |kept| && kept[j] == control && BehindCard(paths, control, c, e)
    requires kept[i] == control[..e] && kept[k] in paths
    ensures DelayLater(kept[k]) == 0
  {
    assert Below(kept, i, k) && Below(kept, k, j);
    if DelayLater(kept[k]) > 0 {
      var d, f := ControlFound(kept[k]);
    }
  }

  lemma ControlIsHeld(paths: seq<CStr>, control: CStr, c: nat, e: nat)
    requires BehindCard(paths, control, c, e) && !EndName(control)
    ensures IsHeld(Ordinary(Distinct(SortedPaths(paths))), control)
  {
    var kept := Ordinary(Distinct(SortedPaths(paths)));
    var card := control[..e];
    if EndName(card) {
      EndNameMore(control, e);
    }
    DelayEndMeans(card);
    DelayEndMeans(control);
    DelayLaterMeans(control, c, e);
    assert Head(control, e) == card;
    PrefixLess(card, control);
    var i, _ := PlaceOf(paths, card);
    var j, _ := PlaceOf(paths, control);
    IndexOrder(kept, i, j);
    forall k | i < k < j
      ensures DelayLater(kept[k]) == 0
    {
      KeptAmong(paths, kept[k]);
      NoneBetween(paths, kept, control, c, e, i, j, k);
    }
    HeldBehindCard(kept, i, j);
  }

  lemma KeptAmong(paths: seq<CStr>, x: CStr)
    requires x in Ordinary(Distinct(SortedPaths(paths)))
    ensures x in paths
  {
    PathsSorted(paths);
    DistinctStrict(SortedPaths(paths));
    Parted(Distinct(SortedPaths(paths)));
    assert x in multiset(SortedPaths(paths));
    assert x in multiset(paths);
  }

  lemma ControlComesLast(paths: seq<CStr>, x: CStr, c: nat, e: nat, y: CStr)
    requires BelowCard(paths, x, c, e, y)
    ensures Precedes(Listing(paths), y, x)
  {
    DelayEndMeans(x);
    DelayEndMeans(y);
    DelayLaterMeans(x, c, e);
    assert Head(y, e + 1) == y[..e + 1] && Head(x, e + 1) == x[..e + 1];
    ControlIsHeld(paths, x, c, e);
    HeldLast(paths, x, y);
  }

  /** What udev_enumerate_get_list_entry() lists is in that order. */
  lemma ListingInOrder(paths: seq<CStr>)
    ensures InListOrder(paths, Listing(paths))
  {
    forall x
      ensures multiset(Listing(paths))[x] == if x in paths then 1 else 0
    {
      EachOnce(paths, x);
    }
    forall x, y | x in paths && y in paths && EndName(x) && !EndName(y)
      ensures Precedes(Listing(paths), y, x)
    {
      EndsLast(paths, x, y);
    }
    forall x, y | x in paths && y in paths && Less(x, y) && (EndName(x) <==> EndName(y)) && !SameCard(x, y)
      ensures Precedes(Listing(paths), x, y)
    {
      SmallerComesFirst(paths, x, y);
    }
    forall x, c: nat, e: nat, y | BelowCard(paths, x, c, e, y)
      ensures Precedes(Listing(paths), y, x)
    {
      ControlComesLast(paths, x, c, e, y);
    }
  }

  // "/sys"
  const SYS: CStr := [47, 115, 121, 115]

  /** Below a card with a name of one character. */
  function OnCard(name: Char, rest: CStr): CStr {
    SYS + SOUND_CARD + [name] + rest
  }

  lemma OnCardControl(name: Char)
    requires name != SLASH
    ensures DelayLater(OnCard(name, CONTROL)) == 17
  {
    var s := OnCard(name, CONTROL);
    assert s[4..15] == SOUND_CARD;
    assert s[2..13][0] == s[2] && s[3..14][0] == s[3] && s[1..12][0] == s[1] && s[0..11][2] == s[2];
    assert Find(s, SOUND_CARD, 3) == 4;
    assert Find(s, SOUND_CARD, 1) == 4;
    assert SlashFrom(s, 15) == 16;
    assert s[16..] == CONTROL && Head(s[16..], |CONTROL|) == CONTROL;
  }

  /** Three paths below two cards, in order. */
  lemma OnCardsOrder(x: CStr, y: CStr, z: CStr)
    requires x == OnCard(48, CONTROL) && y == OnCard(49, CONTROL) && z == OnCard(49, [SLASH, 112])
    ensures Less(x, y) && Less(y, z) && Less(x, z)
  {
    CommonHead(SYS + SOUND_CARD, [48] + CONTROL, [49] + CONTROL);
    CommonHead(SYS + SOUND_CARD + [49, SLASH], CONTROL[1..], [112]);
    assert x == SYS + SOUND_CARD + ([48] + CONTROL) && y == SYS + SOUND_CARD + ([49] + CONTROL);
    assert y == SYS + SOUND_CARD + [49, SLASH] + CONTROL[1..] && z == SYS + SOUND_CARD + [49, SLASH] + [112];
    LessTransitive(x, y, z);
  }

  lemma OnCardsShared(x: CStr, y: CStr, z: CStr)
    requires x == OnCard(48, CONTROL) && y == OnCard(49, CONTROL) && z == OnCard(49, [SLASH, 112])
    ensures DelayLater(x) > 0 && DelayLater(y) > 0 && DelayLater(z) == 0
    ensures !Shares(x, y) && Shares(y, z)
  {
    OnCardControl(48);
    OnCardControl(49);
    assert Head(x, 17)[15] == 48 && Head(y, 17)[15] == 49;
    assert Head(y, 17) == Head(z, 17);
    SharedPrefix(y, z);
    assert z[16..] == [SLASH, 112];
  }

  /**
    Without it the rule fails: only one path is held back at a time, and the control node
    of a second card, which ends the holding back of the first, is listed at once.
    */
  lemma OneAtATime(kept: seq<CStr>)
    requires |kept| == 3 && DelayLater(kept[0]) > 0 && DelayLater(kept[1]) > 0 && DelayLater(kept[2]) == 0
    requires !Shares(kept[0], kept[1])
    ensures Arranged(kept) == kept && !HeldBack(kept, 1)
  {
    assert Pending(kept, 1) == 0 && Listed(kept, 1) == [];
    assert Pending(kept, 2) == -1 && Listed(kept, 2) == [kept[0]] + [kept[1]];
    assert Listed(kept, 3) == kept && Pending(kept, 3) == -1;
  }

  lemma OnCards() returns (x: CStr, y: CStr, z: CStr)
    ensures Less(x, y) && Less(y, z) && Less(x, z)
    ensures DelayLater(x) > 0 && DelayLater(y) > 0 && DelayLater(z) == 0
    ensures !Shares(x, y) && Shares(y, z)
    ensures !DelayEnd(x) && !DelayEnd(y) && !DelayEnd(z)
  {
    x, y, z := OnCard(48, CONTROL), OnCard(49, CONTROL), OnCard(49, [SLASH, 112]);
    OnCardsOrder(x, y, z);
    OnCardsShared(x, y, z);
    CardsNoBlock(48, CONTROL);
    CardsNoBlock(49, CONTROL);
    CardsNoBlock(49, [SLASH, 112]);
  }

  /** Sorting leaves what is sorted, and there is nothing to skip. */
  lemma {:induction false} AlreadySorted(s: seq<CStr>)
    requires Strict(s)
    ensures SortedPaths(s) == s && Distinct(s) == s
    decreases |s|
  {
    if s != [] {
      var n := |s| - 1;
      var init := s[..n];
      assert s == init + [s[n]];
      forall i, j | 0 <= i < j < n
        ensures Below(init, i, j)
      {
        assert Below(s, i, j);
      }
      AlreadySorted(init);
      if n > 0 {
        assert Below(s, n - 1, n);
        LessNotBack(s[n - 1], s[n]);
        LessIrreflexive(s[n]);
      }
    }
  }

  lemma {:induction false} NoneDelayed(s: seq<CStr>)
    requires forall i :: 0 <= i < |s| ==> !DelayEnd(s[i])
    ensures Ordinary(s) == s && Delayed(s) == []
    decreases |s|
  {
    if s != [] {
      assert s == s[..|s| - 1] + [s[|s| - 1]];
      NoneDelayed(s[..|s| - 1]);
    }
  }

  lemma {:induction false} NotFound(s: CStr, pattern: CStr, i: nat)
    requires |pattern| > 1 && forall k :: 0 <= k < |s| ==> s[k] != pattern[1]
    ensures Find(s, pattern, i) == -1
    decreases |s| - i
  {
    if i + |pattern| <= |s| {
      assert s[i..i + |pattern|][1] == s[i + 1];
      NotFound(s, pattern, i + 1);
    }
  }

  /** A path without a "b" is no block device. */
  lemma NoBlock(path: CStr)
    requires |path| >= 4 && forall k :: 0 <= k < |path| ==> path[k] != BLOCK_MD[1]
    ensures !DelayEnd(path)
  {
    NotFound(path[4..], BLOCK_MD, 0);
    NotFound(path[4..], BLOCK_DM, 0);
  }

  lemma CardsNoBlock(name: Char, rest: CStr)
    requires name != 98 && (rest == CONTROL || rest == [SLASH, 112])
    ensures !DelayEnd(OnCard(name, rest))
  {
    NoBlock(OnCard(name, rest));
  }

  lemma InOrder(x: CStr, y: CStr, z: CStr)
    requires Less(x, y) && Less(y, z) && Less(x, z)
    ensures Strict([x, y, z])
  {
  }

  /**
    Two control nodes and another path of the second card: they are listed as they are,
    the second control node before the rest of its card.
    */
  lemma TwoCards() returns (paths: seq<CStr>)
    ensures |paths| == 3 && DelayLater(paths[1]) > 0 && Shares(paths[1], paths[2])
    ensures Listing(paths) == paths && Precedes(Listing(paths), paths[1], paths[2])
  {
    var x, y, z := OnCards();
    paths := [x, y, z];
    InOrder(x, y, z);
    AlreadySorted(paths);
    NoneDelayed(paths);
    OneAtATime(paths);
    assert Listing(paths) == paths;
  }

  lemma {:induction false} CommonHead(head: CStr, s: CStr, t: CStr)
    ensures Less(head + s, head + t) <==> Less(s, t)
    decreases |head|
  {
    if head == [] {
      assert head + s == s && head + t == t;
    } else {
      assert (head + s)[1..] == head[1..] + s && (head + t)[1..] == head[1..] + t;
      CommonHead(head[1..], s, t);
    }
  }
}
