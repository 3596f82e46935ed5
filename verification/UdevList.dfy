/**
  lib/libudev-list.c: a ring of entries through the list's head and, for a list of
  unique names, an array of the same entries that is searched by bisection.

  Entries live in a pool of records, and a pointer is an index into it; the head is
  the first record.  A freed record stays in the pool, out of the ring.
  */
module UdevLists {
  import opened CStrings
  import opened ChildArrays

  datatype Value = Null | Str(s: CStr)
  datatype Entry = Entry(next: Ptr, prev: Ptr, name: CStr, value: Value)
  datatype Lookup = Found(i: nat) | Missing(insertAt: nat)

  const HEAD: Ptr := 0

  /** The entry at a position of the ring; the head comes before the first and after the last. */
  function EntryAt(ring: seq<Ptr>, k: int): Ptr {
    if 0 <= k < |ring| then ring[k] else HEAD
  }

  /** The two pointers between a position and the next. */
  ghost predicate Joined(pool: seq<Entry>, ring: seq<Ptr>, k: int)
    requires EntryAt(ring, k) < |pool| && EntryAt(ring, k + 1) < |pool|
  {
    pool[EntryAt(ring, k)].next == EntryAt(ring, k + 1) && pool[EntryAt(ring, k + 1)].prev == EntryAt(ring, k)
  }

  ghost predicate Distinct(ring: seq<Ptr>) {
    forall i, j {:trigger Apart(ring, i, j)} :: 0 <= i < j < |ring| ==> Apart(ring, i, j)
  }

  ghost predicate Apart(ring: seq<Ptr>, i: nat, j: nat)
    requires i < |ring| && j < |ring|
  {
    ring[i] != ring[j]
  }

  /** Both pointers of every entry agree with the order of the ring. */
  ghost predicate Linked(pool: seq<Entry>, ring: seq<Ptr>) {
    && pool != []
    && (forall k :: 0 <= k < |ring| ==> 0 < ring[k] < |pool|)
    && Distinct(ring)
    && (forall k {:trigger Joined(pool, ring, k)} :: -1 <= k < |ring| ==> Joined(pool, ring, k))
  }

  ghost predicate InOrder(pool: seq<Entry>, ring: seq<Ptr>, i: nat, j: nat)
    requires i < |ring| && j < |ring| && ring[i] < |pool| && ring[j] < |pool|
  {
    Less(pool[ring[i]].name, pool[ring[j]].name)
  }

  /** Names in strictly increasing order. */
  ghost predicate NamesSorted(pool: seq<Entry>, ring: seq<Ptr>) {
    && (forall k :: 0 <= k < |ring| ==> ring[k] < |pool|)
    && (forall i, j {:trigger InOrder(pool, ring, i, j)} :: 0 <= i < j < |ring| ==> InOrder(pool, ring, i, j))
  }

  ghost predicate Listed(pool: seq<Entry>, ring: seq<Ptr>, name: CStr)
    requires forall k :: 0 <= k < |ring| ==> ring[k] < |pool|
  {
    exists k :: 0 <= k < |ring| && pool[ring[k]].name == name
  }

  /** The entries are those of the map. */
  ghost predicate Lists(pool: seq<Entry>, ring: seq<Ptr>, contents: map<CStr, Value>) {
    && (forall k :: 0 <= k < |ring| ==> ring[k] < |pool|)
    && (forall k {:trigger ring[k]} :: 0 <= k < |ring| ==>
          pool[ring[k]].name in contents && contents[pool[ring[k]].name] == pool[ring[k]].value)
    && (forall name {:trigger Listed(pool, ring, name)} :: name in contents ==> Listed(pool, ring, name))
  }

  /** No entry is in the ring twice. */
  lemma Positions(ring: seq<Ptr>)
    requires Distinct(ring)
    ensures forall i, j :: 0 <= i < j < |ring| ==> ring[i] != ring[j]
  {
    forall i, j | 0 <= i < j < |ring|
      ensures ring[i] != ring[j]
    {
      assert Apart(ring, i, j);
    }
  }

  lemma InsertedApart(ring: seq<Ptr>, e: Ptr, k: nat)
    requires Distinct(ring) && k <= |ring| && e !in ring
    ensures Distinct(ring[..k] + [e] + ring[k..])
  {
    var ring' := ring[..k] + [e] + ring[k..];
    forall i, j | 0 <= i < j < |ring'|
      ensures Apart(ring', i, j)
    {
      assert i != k && j != k ==> Apart(ring, if i < k then i else i - 1, if j < k then j else j - 1);
    }
  }

  lemma RemovedApart(ring: seq<Ptr>, k: nat)
    requires Distinct(ring) && k < |ring|
    ensures Distinct(ring[..k] + ring[k + 1..])
  {
    var ring' := ring[..k] + ring[k + 1..];
    forall i, j | 0 <= i < j < |ring'|
      ensures Apart(ring', i, j)
    {
      assert Apart(ring, if i < k then i else i + 1, if j < k then j else j + 1);
    }
  }

  /** An unlinked record between two neighbours. */
  function Between(pool: seq<Entry>, e: Ptr, prev: Ptr, next: Ptr): (p: seq<Entry>)
    requires e < |pool| && prev < |pool| && next < |pool|
    ensures |p| == |pool|
  {
    var p1 := pool[next := pool[next].(prev := e)];
    var p2 := p1[e := p1[e].(next := next)];
    var p3 := p2[e := p2[e].(prev := prev)];
    p3[prev := p3[prev].(next := e)]
  }

  lemma InsertedLinked(pool: seq<Entry>, ring: seq<Ptr>, e: Ptr, k: nat)
    requires Linked(pool, ring) && k <= |ring|
    requires 0 < e < |pool| && e !in ring
    ensures Linked(Between(pool, e, EntryAt(ring, k - 1), EntryAt(ring, k)), ring[..k] + [e] + ring[k..])
  {
    var pool', ring' := Between(pool, e, EntryAt(ring, k - 1), EntryAt(ring, k)), ring[..k] + [e] + ring[k..];
    InsertedApart(ring, e, k);
    Positions(ring);
    forall j | -1 <= j < |ring'|
      ensures Joined(pool', ring', j)
    {
      InsertedJoined(pool, ring, e, k, j);
    }
  }

  /** Who is where in the longer ring. */
  lemma InsertedAt(ring: seq<Ptr>, e: Ptr, k: nat, j: int)
    requires k <= |ring| && -1 <= j <= |ring| + 1
    ensures EntryAt(ring[..k] + [e] + ring[k..], j) ==
            if j < k then EntryAt(ring, j) else if j == k then e else EntryAt(ring, j - 1)
  {
  }

  /** Which pointers change. */
  lemma BetweenPointers(pool: seq<Entry>, e: Ptr, prev: Ptr, next: Ptr, x: Ptr)
    requires e < |pool| && prev < |pool| && next < |pool| && e != prev && e != next && x < |pool|
    ensures Between(pool, e, prev, next)[x].next == if x == prev then e else if x == e then next else pool[x].next
    ensures Between(pool, e, prev, next)[x].prev == if x == next then e else if x == e then prev else pool[x].prev
  {
  }

  /** One pair of neighbours. */
  lemma InsertedJoined(pool: seq<Entry>, ring: seq<Ptr>, e: Ptr, k: nat, j: int)
    requires Linked(pool, ring) && k <= |ring| && 0 < e < |pool| && e !in ring && -1 <= j <= |ring|
    requires forall i, l :: 0 <= i < l < |ring| ==> ring[i] != ring[l]
    ensures var ring' := ring[..k] + [e] + ring[k..];
            && EntryAt(ring', j) < |pool| && EntryAt(ring', j + 1) < |pool|
            && Joined(Between(pool, e, EntryAt(ring, k - 1), EntryAt(ring, k)), ring', j)
  {
    var prev, next := EntryAt(ring, k - 1), EntryAt(ring, k);
    InsertedAt(ring, e, k, j);
    InsertedAt(ring, e, k, j + 1);
    var x, y := EntryAt(ring[..k] + [e] + ring[k..], j), EntryAt(ring[..k] + [e] + ring[k..], j + 1);
    BetweenPointers(pool, e, prev, next, x);
    BetweenPointers(pool, e, prev, next, y);
    if j < k - 1 {
      assert Joined(pool, ring, j);
    } else if j > k {
      assert Joined(pool, ring, j - 1);
    }
  }

  /** An entry's neighbours are joined. */
  function Without(pool: seq<Entry>, e: Ptr): (p: seq<Entry>)
    requires e < |pool| && pool[e].next < |pool| && pool[e].prev < |pool|
    ensures |p| == |pool|
  {
    var prev, next := pool[e].prev, pool[e].next;
    var p1 := pool[next := pool[next].(prev := prev)];
    p1[prev := p1[prev].(next := next)]
  }

  lemma RemovedLinked(pool: seq<Entry>, ring: seq<Ptr>, k: nat)
    requires Linked(pool, ring) && k < |ring|
    ensures pool[ring[k]].next == EntryAt(ring, k + 1) && pool[ring[k]].prev == EntryAt(ring, k - 1)
    ensures Linked(Without(pool, ring[k]), ring[..k] + ring[k + 1..])
  {
    assert Joined(pool, ring, k - 1) && Joined(pool, ring, k);
    var pool', ring' := Without(pool, ring[k]), ring[..k] + ring[k + 1..];
    RemovedApart(ring, k);
    Positions(ring);
    forall j | -1 <= j < |ring'|
      ensures Joined(pool', ring', j)
    {
      assert j < k ==> Joined(pool, ring, j);
      assert j >= k - 1 ==> Joined(pool, ring, j + 1);
    }
  }

  lemma OtherName(pool: seq<Entry>, ring: seq<Ptr>, i: nat, j: nat)
    requires NamesSorted(pool, ring) && i < |ring| && j < |ring| && i != j
    ensures pool[ring[i]].name != pool[ring[j]].name
  {
    assert i < j ==> InOrder(pool, ring, i, j);
    assert j < i ==> InOrder(pool, ring, j, i);
    LessIrreflexive(pool[ring[i]].name);
  }

  /** A new name at its place keeps the order, and the map gains it. */
  lemma InsertedSorted(pool: seq<Entry>, ring: seq<Ptr>, contents: map<CStr, Value>, e: Ptr, k: nat)
    requires NamesSorted(pool, ring) && Lists(pool, ring, contents) && e < |pool| && k <= |ring|
    requires forall j :: 0 <= j < k ==> Less(pool[ring[j]].name, pool[e].name)
    requires forall j :: k <= j < |ring| ==> Less(pool[e].name, pool[ring[j]].name)
    ensures NamesSorted(pool, ring[..k] + [e] + ring[k..])
    ensures Lists(pool, ring[..k] + [e] + ring[k..], contents[pool[e].name := pool[e].value])
  {
    var name, ring' := pool[e].name, ring[..k] + [e] + ring[k..];
    var contents' := contents[name := pool[e].value];
    LessIrreflexive(name);
    forall i, j | 0 <= i < j < |ring'|
      ensures InOrder(pool, ring', i, j)
    {
      assert i != k && j != k ==> InOrder(pool, ring, if i < k then i else i - 1, if j < k then j else j - 1);
    }
    forall n | n in contents'
      ensures Listed(pool, ring', n)
    {
      if n == name {
        assert pool[ring'[k]].name == n;
      } else {
        assert Listed(pool, ring, n);
        var j :| 0 <= j < |ring| && pool[ring[j]].name == n;
        assert ring'[if j < k then j else j + 1] == ring[j];
      }
    }
  }

  /** A value replaced in place. */
  lemma ReplacedSorted(pool: seq<Entry>, ring: seq<Ptr>, contents: map<CStr, Value>, k: nat, value: Value)
    requires Linked(pool, ring) && NamesSorted(pool, ring) && Lists(pool, ring, contents) && k < |ring|
    ensures var pool' := pool[ring[k] := pool[ring[k]].(value := value)];
            && Linked(pool', ring) && NamesSorted(pool', ring)
            && Lists(pool', ring, contents[pool[ring[k]].name := value])
  {
    var pool' := pool[ring[k] := pool[ring[k]].(value := value)];
    assert forall e :: 0 <= e < |pool| ==> pool'[e].name == pool[e].name;
    forall j | -1 <= j < |ring|
      ensures Joined(pool', ring, j)
    {
      assert Joined(pool, ring, j);
    }
    forall i, j | 0 <= i < j < |ring|
      ensures InOrder(pool', ring, i, j) && Apart(ring, i, j)
    {
      assert InOrder(pool, ring, i, j);
      LessIrreflexive(pool[ring[i]].name);
    }
    forall j | 0 <= j < |ring| && j != k
      ensures pool[ring[j]].name != pool[ring[k]].name
    {
      OtherName(pool, ring, j, k);
    }
    forall n | n in contents[pool[ring[k]].name := value]
      ensures Listed(pool', ring, n)
    {
      assert Listed(pool, ring, n);
    }
  }

  lemma RemovedSorted(pool: seq<Entry>, ring: seq<Ptr>, k: nat)
    requires NamesSorted(pool, ring) && k < |ring|
    ensures NamesSorted(pool, ring[..k] + ring[k + 1..])
  {
    var ring' := ring[..k] + ring[k + 1..];
    forall i, j | 0 <= i < j < |ring'|
      ensures InOrder(pool, ring', i, j)
    {
      assert InOrder(pool, ring, if i < k then i else i + 1, if j < k then j else j + 1);
    }
  }

  /** An entry taken out: its name leaves the map. */
  lemma RemovedListed(pool: seq<Entry>, ring: seq<Ptr>, contents: map<CStr, Value>, k: nat)
    requires NamesSorted(pool, ring) && Lists(pool, ring, contents) && k < |ring|
    ensures Lists(pool, ring[..k] + ring[k + 1..], contents - {pool[ring[k]].name})
  {
    var name, ring' := pool[ring[k]].name, ring[..k] + ring[k + 1..];
    forall j | 0 <= j < |ring| && j != k
      ensures pool[ring[j]].name != name
    {
      OtherName(pool, ring, j, k);
    }
    forall n | n in contents - {name}
      ensures Listed(pool, ring', n)
    {
      assert Listed(pool, ring, n);
      var j :| 0 <= j < |ring| && pool[ring[j]].name == n;
      assert ring'[if j < k then j else j - 1] == ring[j];
    }
  }

  ghost predicate SameData(pool: seq<Entry>, pool': seq<Entry>) {
    |pool| <= |pool'| &&
    forall e {:trigger pool'[e]} :: 0 <= e < |pool| ==> pool'[e].name == pool[e].name && pool'[e].value == pool[e].value
  }

  lemma SameDataSorted(pool: seq<Entry>, pool': seq<Entry>, ring: seq<Ptr>)
    requires SameData(pool, pool') && NamesSorted(pool, ring)
    ensures NamesSorted(pool', ring)
  {
    forall i, j | 0 <= i < j < |ring|
      ensures InOrder(pool', ring, i, j)
    {
      assert InOrder(pool, ring, i, j);
    }
  }

  lemma SameDataListed(pool: seq<Entry>, pool': seq<Entry>, ring: seq<Ptr>, contents: map<CStr, Value>)
    requires SameData(pool, pool') && Lists(pool, ring, contents)
    ensures Lists(pool', ring, contents)
  {
    forall k | 0 <= k < |ring|
      ensures pool'[ring[k]].name == pool[ring[k]].name && pool'[ring[k]].value == pool[ring[k]].value
    {
    }
    forall n | n in contents
      ensures Listed(pool', ring, n)
    {
      assert Listed(pool, ring, n);
    }
  }

  lemma LinkedAllocated(pool: seq<Entry>, ring: seq<Ptr>, e: Entry)
    requires Linked(pool, ring)
    ensures Linked(pool + [e], ring)
  {
    forall j | -1 <= j < |ring|
      ensures Joined(pool + [e], ring, j)
    {
      assert Joined(pool, ring, j);
    }
  }

  class UdevList {
    var pool: seq<Entry>
    const unique: bool
    // the sorted array, its used part; NULL while nothing is allocated for it
    var entries: seq<Ptr>
    var entriesMax: nat
    ghost var ring: seq<Ptr>
    // the map that a list of unique names stands for
    ghost var contents: map<CStr, Value>

    /** Ring and array fit together, or the array is freed. */
    ghost predicate Sound()
      reads this
    {
      && Linked(pool, ring)
      && if entriesMax == 0 then entries == [] else unique && entries == ring && NamesSorted(pool, ring)
    }

    /** A unique list: ring and array list the same entries, in the order of their names. */
    ghost predicate Valid()
      reads this
    {
      && Sound()
      && |entries| <= entriesMax
      && (unique ==> entries == ring && NamesSorted(pool, ring) && Lists(pool, ring, contents))
      && (!unique ==> entriesMax == 0)
    }

    /** udev_list_init() */
    constructor (unique: bool)
      ensures Valid() && this.unique == unique && ring == [] && contents == map[]
    {
      this.unique := unique;
      pool := [Entry(HEAD, HEAD, [], Null)];
      entries, entriesMax, ring, contents := [], 0, [], map[];
      new;
      assert Joined(pool, ring, -1);
    }

    /** udev_list_node_insert_between(), before position k of the ring. */
    method InsertBetween(e: Ptr, prev: Ptr, next: Ptr, ghost k: nat)
      requires Linked(pool, ring) && k <= |ring| && 0 < e < |pool| && e !in ring
      requires prev == EntryAt(ring, k - 1) && next == EntryAt(ring, k)
      modifies this`pool, this`ring
      ensures Linked(pool, ring) && ring == old(ring)[..k] + [e] + old(ring)[k..]
      ensures SameData(old(pool), pool) && |pool| == |old(pool)|
    {
      InsertedLinked(pool, ring, e, k);
      ghost var after := Between(pool, e, prev, next);
      pool := pool[next := pool[next].(prev := e)];
      pool := pool[e := pool[e].(next := next)];
      pool := pool[e := pool[e].(prev := prev)];
      pool := pool[prev := pool[prev].(next := e)];
      assert pool == after;
      ring := ring[..k] + [e] + ring[k..];
    }

    /** udev_list_node_remove() */
    method NodeRemove(e: Ptr, ghost k: nat)
      requires Linked(pool, ring) && k < |ring| && ring[k] == e
      modifies this`pool, this`ring
      ensures Linked(pool, ring) && ring == old(ring)[..k] + old(ring)[k + 1..]
      ensures SameData(old(pool), pool)
    {
      RemovedLinked(pool, ring, k);
      var prev, next := pool[e].prev, pool[e].next;
      pool := pool[next := pool[next].(prev := prev)];
      pool := pool[prev := pool[prev].(next := next)];
      ring := ring[..k] + ring[k + 1..];
    }

    /** list_search(): the index of the name, or its place in the order as a negative number. */
    method Search(name: CStr) returns (r: int)
      requires NamesSorted(pool, entries)
      ensures r >= 0 ==> r < |entries| && pool[entries[r]].name == name
      ensures r < 0 ==>
                && 0 <= -r - 1 <= |entries|
                && (forall j :: 0 <= j < -r - 1 ==> Less(pool[entries[j]].name, name))
                && (forall j :: -r - 1 <= j < |entries| ==> Less(name, pool[entries[j]].name))
    {
      var first, last := 0, |entries|;
      while first < last
        invariant 0 <= first <= last <= |entries|
        invariant forall j :: 0 <= j < first ==> Less(pool[entries[j]].name, name)
        invariant forall j :: last <= j < |entries| ==> Less(name, pool[entries[j]].name)
      {
        var i := (first + last) / 2;
        var other := pool[entries[i]].name;
        LessTotal(name, other);
        if Less(name, other) {
          forall j | i < j < |entries|
            ensures Less(name, pool[entries[j]].name)
          {
            assert InOrder(pool, entries, i, j);
            LessTransitive(name, other, pool[entries[j]].name);
          }
          last := i;
        } else if name != other {
          forall j | 0 <= j < i
            ensures Less(pool[entries[j]].name, name)
          {
            assert InOrder(pool, entries, j, i);
            LessTransitive(pool[entries[j]].name, other, name);
          }
          first := i + 1;
        } else {
          return i;
        }
      }
      return -(first + 1);
    }

    /** A new entry, not yet in the ring. */
    method Allocate(name: CStr, value: Value) returns (e: Ptr)
      requires Linked(pool, ring)
      modifies this`pool
      ensures Linked(pool, ring) && SameData(old(pool), pool)
      ensures e == |old(pool)| && |pool| == e + 1 && pool[e].name == name && pool[e].value == value && e !in ring
    {
      LinkedAllocated(pool, ring, Entry(HEAD, HEAD, name, value));
      e := |pool|;
      pool := pool + [Entry(HEAD, HEAD, name, value)];
    }

    /** udev_list_entry_insert_before(), for the entry at position i. */
    method InsertBefore(e: Ptr, entry: Ptr, ghost i: nat)
      requires Linked(pool, ring) && i < |ring| && entry == ring[i] && 0 < e < |pool| && e !in ring
      modifies this`pool, this`ring
      ensures Linked(pool, ring) && ring == old(ring)[..i] + [e] + old(ring)[i..]
      ensures SameData(old(pool), pool) && |pool| == |old(pool)|
    {
      assert Joined(pool, ring, i - 1);
      InsertBetween(e, pool[entry].prev, entry, i);
    }

    /** udev_list_entry_append() */
    method Append(e: Ptr)
      requires Linked(pool, ring) && 0 < e < |pool| && e !in ring
      modifies this`pool, this`ring
      ensures Linked(pool, ring) && ring == old(ring) + [e]
      ensures SameData(old(pool), pool) && |pool| == |old(pool)|
    {
      assert Joined(pool, ring, |ring| - 1);
      InsertBetween(e, pool[HEAD].prev, HEAD, |ring|);
    }

    /** The entry is linked in at its place, and entered in the array. */
    method Enter(e: Ptr, i: nat, ghost grown: seq<Ptr>, ghost contents': map<CStr, Value>)
      requires Linked(pool, ring) && unique && entries == ring && i <= |ring| < entriesMax
      requires 0 < e < |pool| && e !in ring && grown == ring[..i] + [e] + ring[i..]
      requires NamesSorted(pool, grown) && Lists(pool, grown, contents')
      modifies this`pool, this`ring, this`entries, this`contents
      ensures Valid() && contents == contents' && ring == grown
      ensures SameData(old(pool), pool)
    {
      ghost var before := pool;
      if i < |entries| {
        InsertBefore(e, entries[i], i);
      } else {
        AtEnd(ring, e, i);
        Append(e);
      }
      entries := entries[..i] + [e] + entries[i..];
      contents := contents';
      SameDataSorted(before, pool, grown);
      SameDataListed(before, pool, grown, contents');
    }

    lemma AtEnd(ring: seq<Ptr>, e: Ptr, i: nat)
      requires i == |ring|
      ensures ring[..i] + [e] + ring[i..] == ring + [e]
    {
    }

    /** A name that is not listed yet goes where the search said, in the ring and in the array. */
    method AddUnique(name: CStr, value: Value, i: nat) returns (e: Ptr)
      requires Valid() && unique && i <= |entries|
      requires forall j :: 0 <= j < i ==> Less(pool[entries[j]].name, name)
      requires forall j :: i <= j < |entries| ==> Less(name, pool[entries[j]].name)
      modifies this
      ensures Valid() && contents == old(contents)[name := value]
      ensures e in ring && pool[e].name == name && pool[e].value == value
    {
      ghost var before := pool;
      e := Allocate(name, value);
      if |entries| >= entriesMax {
        entriesMax := entriesMax + if entriesMax < 1 then 64 else entriesMax;
      }
      SameDataSorted(before, pool, ring);
      SameDataListed(before, pool, ring, contents);
      InsertedSorted(pool, ring, contents, e, i);
      ghost var grown := ring[..i] + [e] + ring[i..];
      assert grown[i] == e;
      Enter(e, i, grown, contents[name := value]);
    }

    /** udev_list_entry_add(): a unique list has its value replaced, any other list gets one more entry. */
    method Add(name: CStr, value: Value) returns (e: Ptr)
      requires Valid()
      modifies this
      ensures Valid()
      ensures e in ring && pool[e].name == name && pool[e].value == value
      ensures unique ==> contents == old(contents)[name := value]
      ensures !unique ==> ring == old(ring) + [e] && e >= |old(pool)| && SameData(old(pool), pool)
    {
      if unique {
        var i := Search(name);
        if i >= 0 {
          e := entries[i];
          ReplacedSorted(pool, ring, contents, i, value);
          pool := pool[e := pool[e].(value := value)];
          contents := contents[name := value];
          return;
        }
        e := AddUnique(name, value, (-i) - 1);
      } else {
        e := Allocate(name, value);
        Append(e);
      }
    }

    /** udev_list_entry_delete() */
    method Delete(e: Ptr, ghost k: nat)
      requires Sound() && k < |ring| && ring[k] == e
      modifies this
      ensures Sound() && ring == old(ring)[..k] + old(ring)[k + 1..]
      ensures entriesMax == old(entriesMax) && SameData(old(pool), pool)
      ensures old(Valid()) ==> Valid() && (unique ==> contents == old(contents) - {old(pool[e].name)})
    {
      ghost var before, listed := pool, ring;
      if entriesMax != 0 {
        var i := Search(pool[e].name);
        if i >= 0 {
          if i != k {
            OtherName(pool, ring, i, k);
          }
          entries := entries[..i] + entries[i + 1..];
        } else {
          LessIrreflexive(pool[e].name);
          assert false;
        }
      }
      NodeRemove(e, k);
      if NamesSorted(before, listed) {
        RemovedSorted(before, listed, k);
        SameDataSorted(before, pool, ring);
        if Lists(before, listed, contents) {
          RemovedListed(before, listed, contents, k);
          contents := contents - {before[e].name};
          SameDataListed(before, pool, ring, contents);
        }
      }
    }

    /** udev_list_cleanup() */
    method Cleanup()
      requires Valid()
      modifies this
      ensures Valid() && ring == [] && contents == map[]
    {
      entries, entriesMax := [], 0;
      var e := GetEntry();
      while e != HEAD
        invariant Sound() && entriesMax == 0
        invariant e == EntryAt(ring, 0)
        decreases |ring|
      {
        var next := GetNext(e, 0);
        Delete(e, 0);
        e := next;
      }
      assert ring == [];
      contents := map[];
    }

    /** udev_list_get_entry(), NULL being the head. */
    method GetEntry() returns (e: Ptr)
      requires Linked(pool, ring)
      ensures e == EntryAt(ring, 0)
    {
      assert Joined(pool, ring, -1);
      e := pool[HEAD].next;
    }

    /** udev_list_entry_get_next(), NULL being the head. */
    method GetNext(e: Ptr, ghost k: nat) returns (next: Ptr)
      requires Linked(pool, ring) && k < |ring| && ring[k] == e
      ensures next == EntryAt(ring, k + 1)
    {
      assert Joined(pool, ring, k);
      next := pool[e].next;
    }

    /** udev_list_entry_get_by_name(), NULL being the head. */
    method GetByName(name: CStr) returns (e: Ptr)
      requires Valid()
      ensures !unique ==> e == HEAD
      ensures unique ==> (e != HEAD <==> name in contents)
      ensures e != HEAD ==> e in ring && pool[e].name == name && pool[e].value == contents[name]
    {
      if !unique {
        return HEAD;
      }
      var i := Search(name);
      if i < 0 {
        LessIrreflexive(name);
        assert !Listed(pool, ring, name);
        return HEAD;
      }
      e := entries[i];
    }
  }
}
