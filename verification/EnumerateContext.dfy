/**
  struct udev_enumerate of lib/libudev-enumerate.c: the growing array of device paths
  and the list that is made of it.
  */
module EnumerateContexts {
  import opened CStrings
  import opened Enumeration

  /** qsort() is the C library's; all that is used of it is what it makes of the array. */
  method Qsort(a: array<CStr>, n: nat)
    requires n <= a.Length
    modifies a
    ensures a[..n] == SortedPaths(old(a[..n]))
  {
    var s := SortedPaths(a[..n]);
    for k := 0 to n
      invariant a[..k] == s[..k]
    {
      a[k] := s[k];
    }
    assert s[..n] == s;
  }

  /** What a pass over the first i sorted paths leaves behind: the variables of the loop, and the list. */
  ghost predicate Passed(sorted: seq<CStr>, i: nat, prev: int, later: int, prefix: nat, list: seq<CStr>) {
    && i <= |sorted|
    && (if i == 0 then prev == -1 else 0 <= prev < i && sorted[prev] == sorted[i - 1])
    && Arranging(Ordinary(Distinct(sorted[..i])), sorted, i, later, prefix, list)
  }

  ghost predicate Arranging(kept: seq<CStr>, sorted: seq<CStr>, i: nat, later: int, prefix: nat, list: seq<CStr>)
    requires i <= |sorted|
  {
    && -1 <= later < i
    && (later >= 0 <==> Pending(kept, |kept|) >= 0)
    && (later >= 0 ==> sorted[later] == kept[Pending(kept, |kept|)] && prefix == DelayLater(sorted[later]))
    && list == Listed(kept, |kept|)
  }

  /** One path more to arrange: held back; listed; or listed behind what it ends holding back. */
  lemma ArrangingNext(kept: seq<CStr>, sorted: seq<CStr>, i: nat, later: int, prefix: nat, list: seq<CStr>)
    requires i < |sorted| && Arranging(kept, sorted, i, later, prefix, list)
    ensures var x, kept' := sorted[i], kept + [sorted[i]];
            if later == -1 then
              if DelayLater(x) > 0 then Arranging(kept', sorted, i + 1, i, DelayLater(x), list)
              else Arranging(kept', sorted, i + 1, -1, 0, list + [x])
            else
              prefix <= |sorted[later]| &&
              if IsPrefix(Head(sorted[later], prefix), x) then
                Arranging(kept', sorted, i + 1, later, prefix, list + [x])
              else Arranging(kept', sorted, i + 1, -1, prefix, list + [sorted[later]] + [x])
  {
    var x, n, h := sorted[i], |kept|, Pending(kept, |kept|);
    OneMore(kept, x, kept + [x], n, h);
    StillPending(kept, x, h);
    ArrangingStep(kept, kept + [x], sorted, i, later, prefix, list, n, h);
  }

  lemma ArrangingStep(kept: seq<CStr>, kept': seq<CStr>, sorted: seq<CStr>, i: nat, later: int, prefix: nat,
                      list: seq<CStr>, n: nat, h: int)
    requires i < |sorted| && n == |kept| && |kept'| == n + 1 && h == Pending(kept, n)
    requires Arranging(kept, sorted, i, later, prefix, list)
    requires kept'[n] == sorted[i] && (h >= 0 ==> kept'[h] == kept[h])
    requires Pending(kept', n + 1) == if h == -1 then if DelayLater(sorted[i]) > 0 then n else -1
                                      else if Shares(kept[h], sorted[i]) then h else -1
    requires Listed(kept', n + 1) == if h == -1 then if DelayLater(sorted[i]) > 0 then list else list + [sorted[i]]
                                     else if Shares(kept[h], sorted[i]) then list + [sorted[i]]
                                     else list + [kept[h]] + [sorted[i]]
    ensures later == -1 && DelayLater(sorted[i]) > 0 ==>
              Arranging(kept', sorted, i + 1, i, DelayLater(sorted[i]), list)
    ensures later == -1 && DelayLater(sorted[i]) == 0 ==> Arranging(kept', sorted, i + 1, -1, 0, list + [sorted[i]])
    ensures later >= 0 ==> prefix == DelayLater(sorted[later])
    ensures later >= 0 && Shares(sorted[later], sorted[i]) ==>
              Arranging(kept', sorted, i + 1, later, prefix, list + [sorted[i]])
    ensures later >= 0 && !Shares(sorted[later], sorted[i]) ==>
              Arranging(kept', sorted, i + 1, -1, prefix, list + [sorted[later]] + [sorted[i]])
  {
  }

  /** The variables of the loop after one path more. */
  lemma OneMore(kept: seq<CStr>, x: CStr, kept': seq<CStr>, n: nat, h: int)
    requires kept' == kept + [x] && n == |kept| && h == Pending(kept, n)
    ensures Pending(kept', n + 1) == (if h == -1 then if DelayLater(x) > 0 then n else -1
                                      else if Shares(kept[h], x) then h else -1)
    ensures var list := Listed(kept, n);
            Listed(kept', n + 1) == (if h == -1 then if DelayLater(x) > 0 then list else list + [x]
                                     else if Shares(kept[h], x) then list + [x] else list + [kept[h]] + [x])
  {
    SameSoFar(kept, x, n);
    StillPending(kept, x, h);
  }

  lemma StillPending(kept: seq<CStr>, x: CStr, h: int)
    ensures (kept + [x])[|kept|] == x && (0 <= h < |kept| ==> (kept + [x])[h] == kept[h])
  {
  }

  predicate IsDuplicate(sorted: seq<CStr>, i: nat, prev: int)
    requires i < |sorted| && prev < |sorted|
  {
    prev >= 0 && sorted[i] == sorted[prev]
  }

  // One path more: a duplicate, one for the end, or one to be arranged.

  lemma DistinctNext(sorted: seq<CStr>, i: nat, prev: int, later: int, prefix: nat, list: seq<CStr>)
    requires i < |sorted| && Passed(sorted, i, prev, later, prefix, list)
    ensures Distinct(sorted[..i + 1]) ==
            if IsDuplicate(sorted, i, prev) then Distinct(sorted[..i]) else Distinct(sorted[..i]) + [sorted[i]]
  {
    assert sorted[..i + 1][..i] == sorted[..i];
  }

  lemma PartsNext(d: seq<CStr>, x: CStr)
    ensures Ordinary(d + [x]) == if DelayEnd(x) then Ordinary(d) else Ordinary(d) + [x]
    ensures Delayed(d + [x]) == if DelayEnd(x) then Delayed(d) + [x] else Delayed(d)
  {
    assert (d + [x])[..|d|] == d;
  }

  /** The sorted paths stay where they are, and those for the end are behind them. */
  ghost predicate Stored(paths: seq<CStr>, sorted: seq<CStr>, i: nat)
    requires i <= |sorted|
  {
    paths == sorted + Delayed(Distinct(sorted[..i]))
  }

  lemma AfterDuplicate(sorted: seq<CStr>, i: nat, prev: int, later: int, prefix: nat, list: seq<CStr>, paths: seq<CStr>)
    requires i < |sorted| && Passed(sorted, i, prev, later, prefix, list) && Stored(paths, sorted, i)
    requires IsDuplicate(sorted, i, prev)
    ensures Passed(sorted, i + 1, prev, later, prefix, list) && Stored(paths, sorted, i + 1)
  {
    DistinctNext(sorted, i, prev, later, prefix, list);
  }

  lemma AfterDelayed(sorted: seq<CStr>, i: nat, prev: int, later: int, prefix: nat, list: seq<CStr>, paths: seq<CStr>)
    requires i < |sorted| && Passed(sorted, i, prev, later, prefix, list) && Stored(paths, sorted, i)
    requires !IsDuplicate(sorted, i, prev) && DelayEnd(sorted[i])
    ensures Passed(sorted, i + 1, i, later, prefix, list) && Stored(paths + [sorted[i]], sorted, i + 1)
  {
    DistinctNext(sorted, i, prev, later, prefix, list);
    PartsNext(Distinct(sorted[..i]), sorted[i]);
  }

  lemma AfterArranged(sorted: seq<CStr>, i: nat, prev: int, later: int, prefix: nat, list: seq<CStr>, paths: seq<CStr>,
                      later': int, prefix': nat, list': seq<CStr>)
    requires i < |sorted| && Passed(sorted, i, prev, later, prefix, list) && Stored(paths, sorted, i)
    requires !IsDuplicate(sorted, i, prev) && !DelayEnd(sorted[i])
    requires Arranging(Ordinary(Distinct(sorted[..i])) + [sorted[i]], sorted, i + 1, later', prefix', list')
    ensures Passed(sorted, i + 1, i, later', prefix', list') && Stored(paths, sorted, i + 1)
  {
    DistinctNext(sorted, i, prev, later, prefix, list);
    PartsNext(Distinct(sorted[..i]), sorted[i]);
  }

  class Enumerate {
    var devices: array<CStr>
    var devicesCur: nat
    var devicesUptodate: bool
    // the entries of devices_list, which is not a list of unique names
    var devicesList: seq<CStr>

    ghost predicate Valid()
      reads this
    {
      devicesCur <= devices.Length
    }

    /** The paths that were added. */
    ghost function Paths(): seq<CStr>
      reads this, devices
      requires Valid()
    {
      devices[..devicesCur]
    }

    constructor ()
      ensures Valid() && fresh(devices) && Paths() == [] && !devicesUptodate && devicesList == []
    {
      devices := new CStr[0];
      devicesCur := 0;
      devicesUptodate := false;
      devicesList := [];
    }

    /** syspath_add(): the array may have to move, and the list is out of date. */
    method SyspathAdd(syspath: CStr)
      requires Valid()
      modifies this, devices
      ensures Valid() && (devices == old(devices) || fresh(devices))
      ensures Paths() == old(Paths()) + [syspath]
      ensures !devicesUptodate && devicesList == old(devicesList)
    {
      if devicesCur >= devices.Length {
        var add := devices.Length;
        if add < 1024 {
          add := 1024;
        }
        var buf := new CStr[devices.Length + add];
        forall k | 0 <= k < devicesCur {
          buf[k] := devices[k];
        }
        devices := buf;
      }
      devices[devicesCur] := syspath;
      devicesCur := devicesCur + 1;
      devicesUptodate := false;
    }

    /** udev_list_entry_add(): a list whose names need not be unique takes the entry at its end. */
    method ListAdd(name: CStr)
      modifies this`devicesList
      ensures devicesList == old(devicesList) + [name]
    {
      devicesList := devicesList + [name];
    }

    /** The end of the loop's body: hold the path back, or list it, behind what it ends holding back. */
    method ListOrHold(i: nat, moveLater: int, prefix: nat, ghost kept: seq<CStr>, ghost sorted: seq<CStr>)
      returns (later: int, prefix': nat)
      requires Valid() && i < |sorted| <= devicesCur && devices[..|sorted|] == sorted
      requires Arranging(kept, sorted, i, moveLater, prefix, devicesList)
      modifies this`devicesList
      ensures Arranging(kept + [sorted[i]], sorted, i + 1, later, prefix', devicesList)
    {
      ArrangingNext(kept, sorted, i, moveLater, prefix, devicesList);
      var syspath := devices[i];
      assert syspath == sorted[i] && (moveLater >= 0 ==> devices[moveLater] == sorted[moveLater]);
      later, prefix' := moveLater, prefix;
      if later == -1 {
        prefix' := DelayLater(syspath);
        if prefix' > 0 {
          later := i;
          return;
        }
      }
      if later >= 0 && !IsPrefix(Head(devices[later], prefix'), syspath) {
        ListAdd(devices[later]);
        later := -1;
      }
      ListAdd(syspath);
    }

    /** The loop's body. */
    method Visit(i: nat, prev: int, moveLater: int, prefix: nat, ghost sorted: seq<CStr>)
      returns (prev': int, later: int, prefix': nat)
      requires Valid() && i < |sorted| && Passed(sorted, i, prev, moveLater, prefix, devicesList)
      requires Stored(Paths(), sorted, i)
      modifies this, devices
      ensures Valid() && (devices == old(devices) || fresh(devices))
      ensures Passed(sorted, i + 1, prev', later, prefix', devicesList)
      ensures Stored(Paths(), sorted, i + 1)
    {
      ghost var list, paths := devicesList, Paths();
      StoredPrefix(sorted, i);
      var syspath := devices[i];
      assert syspath == sorted[i] && (prev >= 0 ==> devices[prev] == sorted[prev]);
      prev', later, prefix' := prev, moveLater, prefix;
      if prev >= 0 && syspath == devices[prev] {
        AfterDuplicate(sorted, i, prev, moveLater, prefix, list, paths);
        return;
      }
      prev' := i;
      if DelayEnd(syspath) {
        AfterDelayed(sorted, i, prev, moveLater, prefix, list, paths);
        SyspathAdd(syspath);
      } else {
        later, prefix' := ListOrHold(i, moveLater, prefix, Ordinary(Distinct(sorted[..i])), sorted);
        AfterArranged(sorted, i, prev, moveLater, prefix, list, paths, later, prefix', devicesList);
      }
    }

    lemma StoredPrefix(sorted: seq<CStr>, i: nat)
      requires Valid() && i <= |sorted| && Stored(Paths(), sorted, i)
      ensures |sorted| <= devicesCur && devices[..|sorted|] == sorted
      ensures devices[|sorted|..devicesCur] == Delayed(Distinct(sorted[..i]))
    {
      assert devices[..|sorted|] == Paths()[..|sorted|];
      assert devices[|sorted|..devicesCur] == Paths()[|sorted|..];
    }

    /** The copies behind the sorted paths go to the end of the list. */
    method ListDelayed(max: nat)
      requires Valid() && max <= devicesCur
      modifies this`devicesList
      ensures devicesList == old(devicesList) + devices[max..devicesCur]
    {
      for i := max to devicesCur
        invariant devicesList == old(devicesList) + devices[max..i]
      {
        ListAdd(devices[i]);
      }
    }

    /** The loop over the sorted paths, and the control node still held back at its end. */
    method PassOver(max: nat, ghost sorted: seq<CStr>)
      requires Valid() && max == devicesCur && sorted == Paths() && devicesList == []
      modifies this, devices
      ensures Valid() && (devices == old(devices) || fresh(devices))
      ensures Stored(Paths(), sorted, max) && devicesList == Arranged(Ordinary(Distinct(sorted)))
    {
      var prev, moveLater, prefix := -1, -1, 0;
      assert sorted[..0] == [];
      for i := 0 to max
        invariant Valid() && (devices == old(devices) || fresh(devices))
        invariant Passed(sorted, i, prev, moveLater, prefix, devicesList)
        invariant Stored(Paths(), sorted, i)
      {
        prev, moveLater, prefix := Visit(i, prev, moveLater, prefix, sorted);
      }
      ListHeld(max, prev, moveLater, prefix, sorted);
    }

    /** A control node still held back at the end. */
    method ListHeld(max: nat, ghost prev: int, moveLater: int, ghost prefix: nat, ghost sorted: seq<CStr>)
      requires Valid() && max == |sorted| && Passed(sorted, max, prev, moveLater, prefix, devicesList)
      requires Stored(Paths(), sorted, max)
      modifies this`devicesList
      ensures devicesList == Arranged(Ordinary(Distinct(sorted)))
    {
      StoredPrefix(sorted, max);
      assert sorted[..max] == sorted;
      if moveLater >= 0 {
        assert devices[moveLater] == sorted[moveLater];
        ListAdd(devices[moveLater]);
      }
    }

    /** The list of what was added, which leaves the paths sorted. */
    method MakeList()
      requires Valid()
      modifies this, devices
      ensures Valid() && devicesUptodate && (devices == old(devices) || fresh(devices))
      ensures devicesList == Listing(old(Paths())) && Paths() == SortedPaths(old(Paths()))
    {
      devicesList := [];
      Qsort(devices, devicesCur);
      var max := devicesCur;
      ghost var sorted := Paths();
      PassOver(max, sorted);
      StoredPrefix(sorted, max);
      assert sorted[..max] == sorted;
      ListDelayed(max);
      devicesCur := max;
      devicesUptodate := true;
    }

    /** udev_enumerate_get_list_entry(): the list is made when it is out of date; its first entry is returned. */
    method GetListEntry() returns (first: seq<CStr>)
      requires Valid()
      modifies this, devices
      ensures Valid() && devicesUptodate && (devices == old(devices) || fresh(devices))
      ensures first == if devicesList == [] then [] else devicesList[..1]
      ensures old(devicesUptodate) ==> devicesList == old(devicesList) && Paths() == old(Paths())
      ensures !old(devicesUptodate) ==> devicesList == Listing(old(Paths())) && Paths() == SortedPaths(old(Paths()))
      ensures !old(devicesUptodate) ==> InListOrder(old(Paths()), devicesList)
    {
      if !devicesUptodate {
        ghost var paths := Paths();
        MakeList();
        ListingInOrder(paths);
      }
      first := if devicesList == [] then [] else devicesList[..1];
    }
  }
}
