/**
  shared/hashmap.c: a hash map that remembers the order of insertion.  Keys compare
  equal when they are equal; the hash of a key under a hash key is a parameter.

  All maps share the store of entries, so that an entry can move from one to another.
  */
module Hashmaps {
  import opened HashChains

  const INITIAL_N_BUCKETS: nat := 31
  const EEXIST: int := 17
  const ENOENT: int := 2

  // ---- what a map stands for: its items in the order of insertion ----

  function Items<K, V>(pool: seq<Entry<K, V>>, list: seq<Ptr>, n: nat): (items: seq<(K, V)>)
    requires n <= |list| && forall k :: 0 <= k < |list| ==> list[k] < |pool|
    ensures |items| == n
  {
    if n == 0 then [] else Items(pool, list, n - 1) + [(pool[list[n - 1]].key, pool[list[n - 1]].value)]
  }

  lemma {:induction false} ItemAt<K, V>(pool: seq<Entry<K, V>>, list: seq<Ptr>, n: nat, k: nat)
    requires n <= |list| && (forall k :: 0 <= k < |list| ==> list[k] < |pool|) && k < n
    ensures Items(pool, list, n)[k] == (pool[list[k]].key, pool[list[k]].value)
    decreases n
  {
    if k < n - 1 {
      ItemAt(pool, list, n - 1, k);
    }
  }

  /** Keys and values of these entries are the same. */
  ghost predicate SameData<K, V>(pool: seq<Entry<K, V>>, pool': seq<Entry<K, V>>) {
    && |pool| <= |pool'|
    && forall e {:trigger pool'[e]} :: 0 <= e < |pool| ==>
         pool'[e].key == pool[e].key && pool'[e].value == pool[e].value
  }

  lemma {:induction false} ItemsSame<K, V>(pool: seq<Entry<K, V>>, pool': seq<Entry<K, V>>, list: seq<Ptr>,
                                           list': seq<Ptr>, n: nat)
    requires n <= |list| && n <= |list'| && (forall k :: 0 <= k < |list| ==> list[k] < |pool|)
    requires forall k :: 0 <= k < |list'| ==> list'[k] < |pool'|
    requires forall k :: 0 <= k < n ==>
               pool'[list'[k]].key == pool[list[k]].key && pool'[list'[k]].value == pool[list[k]].value
    ensures Items(pool', list', n) == Items(pool, list, n)
    decreases n
  {
    if n > 0 {
      ItemsSame(pool, pool', list, list', n - 1);
    }
  }

  lemma {:induction false} ItemsWithout<K, V>(pool: seq<Entry<K, V>>, list: seq<Ptr>, k: nat)
    requires k < |list| && forall k :: 0 <= k < |list| ==> list[k] < |pool|
    ensures var rest := list[..k] + list[k + 1..];
            var items := Items(pool, list, |list|);
            Items(pool, rest, |rest|) == items[..k] + items[k + 1..]
  {
    var rest := list[..k] + list[k + 1..];
    var items := Items(pool, list, |list|);
    forall i | 0 <= i < |rest|
      ensures Items(pool, rest, |rest|)[i] == (items[..k] + items[k + 1..])[i]
    {
      ItemAt(pool, rest, |rest|, i);
      ItemAt(pool, list, |list|, if i < k then i else i + 1);
    }
  }

  lemma ItemsReplaced<K, V>(pool: seq<Entry<K, V>>, list: seq<Ptr>, k: nat, key: K, value: V)
    requires k < |list| && Distinct(list, |pool|)
    ensures var pool' := pool[list[k] := pool[list[k]].(key := key, value := value)];
            Items(pool', list, |list|) == Items(pool, list, |list|)[k := (key, value)]
  {
    var pool' := pool[list[k] := pool[list[k]].(key := key, value := value)];
    forall i | 0 <= i < |list|
      ensures Items(pool', list, |list|)[i] == Items(pool, list, |list|)[k := (key, value)][i]
    {
      ItemAt(pool, list, |list|, i);
      ItemAt(pool', list, |list|, i);
      if i != k && list[i] == list[k] {
        OnePosition(list, |pool|, i, k);
      }
    }
  }

  ghost predicate KeyApart<K, V>(pool: seq<Entry<K, V>>, list: seq<Ptr>, i: nat, j: nat)
    requires i < |list| && j < |list| && list[i] < |pool| && list[j] < |pool|
  {
    pool[list[i]].key != pool[list[j]].key
  }

  ghost predicate KeysApart<K, V>(pool: seq<Entry<K, V>>, list: seq<Ptr>) {
    && (forall k :: 0 <= k < |list| ==> list[k] < |pool|)
    && (forall i, j {:trigger KeyApart(pool, list, i, j)} :: 0 <= i < j < |list| ==> KeyApart(pool, list, i, j))
  }

  lemma KeysApartKept<K, V>(pool: seq<Entry<K, V>>, pool': seq<Entry<K, V>>, list: seq<Ptr>)
    requires KeysApart(pool, list) && SameData(pool, pool')
    ensures KeysApart(pool', list)
  {
    forall i, j | 0 <= i < j < |list|
      ensures KeyApart(pool', list, i, j)
    {
      assert KeyApart(pool, list, i, j);
      assert pool'[list[i]].key == pool[list[i]].key && pool'[list[j]].key == pool[list[j]].key;
    }
  }

  lemma KeysSame<K, V>(pool: seq<Entry<K, V>>, pool': seq<Entry<K, V>>, list: seq<Ptr>)
    requires KeysApart(pool, list) && |pool| == |pool'|
    requires forall k :: 0 <= k < |list| ==> pool'[list[k]].key == pool[list[k]].key
    ensures KeysApart(pool', list)
  {
    forall i, j | 0 <= i < j < |list|
      ensures KeyApart(pool', list, i, j)
    {
      assert KeyApart(pool, list, i, j);
    }
  }

  lemma KeysApartAppended<K, V>(pool: seq<Entry<K, V>>, list: seq<Ptr>, e: Ptr)
    requires KeysApart(pool, list) && e < |pool|
    requires forall k :: 0 <= k < |list| ==> pool[list[k]].key != pool[e].key
    ensures KeysApart(pool, list + [e])
  {
    forall i, j | 0 <= i < j < |list| + 1
      ensures KeyApart(pool, list + [e], i, j)
    {
      assert j < |list| ==> KeyApart(pool, list, i, j);
    }
  }

  lemma KeysApartWithout<K, V>(pool: seq<Entry<K, V>>, list: seq<Ptr>, k: nat)
    requires KeysApart(pool, list) && k < |list|
    ensures KeysApart(pool, list[..k] + list[k + 1..])
  {
    var rest := list[..k] + list[k + 1..];
    forall i, j | 0 <= i < j < |rest|
      ensures KeyApart(pool, rest, i, j)
    {
      assert KeyApart(pool, list, if i < k then i else i + 1, if j < k then j else j + 1);
    }
  }

  /** An item taken out of the list. */
  lemma ItemRemoved<K, V>(pool: seq<Entry<K, V>>, pool': seq<Entry<K, V>>, list: seq<Ptr>, list': seq<Ptr>, k: nat)
    requires KeysApart(pool, list) && Distinct(list, |pool|) && SameData(pool, pool')
    requires k < |list| && list' == list[..k] + list[k + 1..]
    ensures KeysApart(pool', list') && list[k] !in list'
    ensures Items(pool', list', |list'|) == Drop(Items(pool, list, |list|), k)
  {
    DistinctWithout(list, |pool|, k);
    KeysApartWithout(pool, list, k);
    KeysApartKept(pool, pool', list');
    ItemsWithout(pool, list, k);
    ItemsSame(pool, pool', list', list', |list'|);
  }

  ghost function Members(list: seq<Ptr>): set<Ptr> {
    set e | e in list
  }

  class Heap<K(0), V(0)> {
    // the first record is not used
    var entries: seq<Entry<K, V>>

    constructor ()
      ensures |entries| == 1
    {
      var unused: Entry<K, V> := *;
      entries := [unused];
    }
  }

  class Hashmap<K(0,==,!new), V(0,==)> {
    const heap: Heap<K, V>
    const hash: Hash<K>
    var buckets: seq<Ptr>
    var head: Ptr
    var tail: Ptr
    var nEntries: nat
    var hashKey: nat
    ghost var chains: seq<seq<Ptr>>
    ghost var list: seq<Ptr>

    /** Chains and list fit together; the keys need not. */
    ghost predicate Linked()
      reads this, heap
    {
      && |heap.entries| > 0
      && IterateList(heap.entries, head, tail, list)
      && Buckets(heap.entries, buckets, chains, hash, hashKey, Members(list))
      && nEntries == |list|
    }

    ghost predicate Valid()
      reads this, heap
    {
      Linked() && KeysApart(heap.entries, list)
    }

    ghost function Contents(): seq<(K, V)>
      requires Linked()
      reads this, heap
    {
      Items(heap.entries, list, |list|)
    }

    /** hashmap_new() */
    constructor (heap: Heap<K, V>, hash: Hash<K>, hashKey: nat)
      requires |heap.entries| > 0
      ensures Valid() && Contents() == [] && this.heap == heap && this.hash == hash
    {
      this.heap, this.hash, this.hashKey := heap, hash, hashKey;
      buckets := seq(INITIAL_N_BUCKETS, _ => NULL);
      chains := seq(INITIAL_N_BUCKETS, _ => []);
      head, tail, nEntries, list := NULL, NULL, 0, [];
      new;
      forall b | 0 <= b < |buckets|
        ensures BucketChain(heap.entries, buckets[b], chains[b])
        ensures Homed(heap.entries, chains[b], b, hash, hashKey, |buckets|, Members(list))
      {
      }
    }

    /** An entry becomes the first of its bucket, in the table of the map or in a new one. */
    method PushBucket(table: seq<Ptr>, e: Ptr, b: nat, ghost chains: seq<seq<Ptr>>, ghost hashKey: nat,
                      ghost members: set<Ptr>)
      returns (table': seq<Ptr>, ghost chains': seq<seq<Ptr>>)
      requires Buckets(heap.entries, table, chains, hash, hashKey, members)
      requires 0 < e < |heap.entries| && e !in members && b == BucketOf(hash, heap.entries[e].key, hashKey, |table|)
      modifies heap
      ensures Buckets(heap.entries, table', chains', hash, hashKey, members + {e}) && |table'| == |table|
      ensures KeepsIteration(old(heap.entries), heap.entries) &&
              OnlyThese(old(heap.entries), heap.entries, members + {e})
    {
      ghost var before := heap.entries;
      BucketsPushed(before, table, chains, hash, hashKey, members, e);
      FirstIsMember(before, table, chains, hash, hashKey, members, b);
      var first := table[b];
      heap.entries := heap.entries[e := heap.entries[e].(bucketNext := first, bucketPrevious := NULL)];
      if first != NULL {
        heap.entries := heap.entries[first := heap.entries[first].(bucketPrevious := e)];
      }
      assert heap.entries == BucketPush(before, first, e);
      table', chains' := table[b := e], chains[b := [e] + chains[b]];
    }

    /** An entry leaves the chain of its bucket. */
    method PopBucket(table: seq<Ptr>, e: Ptr, b: nat, ghost chains: seq<seq<Ptr>>, ghost hashKey: nat,
                     ghost members: set<Ptr>)
      returns (table': seq<Ptr>, ghost chains': seq<seq<Ptr>>)
      requires Buckets(heap.entries, table, chains, hash, hashKey, members)
      requires e in members && b == BucketOf(hash, heap.entries[e].key, hashKey, |table|)
      modifies heap
      ensures Buckets(heap.entries, table', chains', hash, hashKey, members - {e}) && |table'| == |table|
      ensures KeepsIteration(old(heap.entries), heap.entries) && OnlyThese(old(heap.entries), heap.entries, members)
    {
      ghost var before := heap.entries;
      NeighboursAreMembers(before, table, chains, hash, hashKey, members, e);
      chains' := BucketsPopped(before, table, chains, hash, hashKey, members, e);
      table' := table;
      var next, previous := heap.entries[e].bucketNext, heap.entries[e].bucketPrevious;
      if next != NULL {
        heap.entries := heap.entries[next := heap.entries[next].(bucketPrevious := previous)];
      }
      if previous != NULL {
        heap.entries := heap.entries[previous := heap.entries[previous].(bucketNext := next)];
      } else {
        table' := table[b := next];
      }
      assert heap.entries == BucketPop(before, e);
    }

    /** link_entry(), the part for the list. */
    method LinkList(e: Ptr)
      requires IterateList(heap.entries, head, tail, list) && 0 < e < |heap.entries| && e !in list
      modifies heap, this`head, this`tail, this`list
      ensures IterateList(heap.entries, head, tail, list) && list == old(list) + [e]
      ensures KeepsBuckets(old(heap.entries), heap.entries) && OnlyThese(old(heap.entries), heap.entries, Members(list))
    {
      ghost var before := heap.entries;
      IterateAppended(before, head, tail, list, e);
      assert tail != NULL ==> tail in list;
      heap.entries := heap.entries[e := heap.entries[e].(iteratePrevious := tail, iterateNext := NULL)];
      if tail != NULL {
        heap.entries := heap.entries[tail := heap.entries[tail].(iterateNext := e)];
      } else {
        head := e;
      }
      assert heap.entries == IterateAppend(before, tail, e);
      tail := e;
      list := list + [e];
    }

    /** link_entry(): first of its bucket, last of the list. */
    method LinkEntry(e: Ptr, b: nat)
      requires Linked() && 0 < e < |heap.entries| && e !in list
      requires b == BucketOf(hash, heap.entries[e].key, hashKey, |buckets|)
      modifies heap, this`buckets, this`chains, this`head, this`tail, this`nEntries, this`list
      ensures Linked() && list == old(list) + [e] && |buckets| == old(|buckets|)
      ensures SameData(old(heap.entries), heap.entries) && OnlyThese(old(heap.entries), heap.entries, Members(list))
      ensures |heap.entries| == |old(heap.entries)|
    {
      ghost var members, before := Members(list), heap.entries;
      buckets, chains := PushBucket(buckets, e, b, chains, hashKey, members);
      ghost var between := heap.entries;
      IterateKept(before, between, head, tail, list, members);
      LinkList(e);
      assert Members(list) == members + {e};
      BucketsKept(between, heap.entries, buckets, chains, hash, hashKey, members + {e});
      nEntries := nEntries + 1;
    }

    /** unlink_entry(), the part for the list. */
    method UnlinkList(e: Ptr, ghost k: nat)
      requires IterateList(heap.entries, head, tail, list) && k < |list| && list[k] == e
      modifies heap, this`head, this`tail, this`list
      ensures IterateList(heap.entries, head, tail, list) && list == old(list)[..k] + old(list)[k + 1..]
      ensures KeepsBuckets(old(heap.entries), heap.entries) &&
              OnlyThese(old(heap.entries), heap.entries, Members(old(list)))
    {
      ghost var before := heap.entries;
      IterateRemoved(before, head, tail, list, k);
      assert IterateNode(before, list, k);
      var next, previous := heap.entries[e].iterateNext, heap.entries[e].iteratePrevious;
      if next != NULL {
        heap.entries := heap.entries[next := heap.entries[next].(iteratePrevious := previous)];
      } else {
        tail := previous;
      }
      if previous != NULL {
        heap.entries := heap.entries[previous := heap.entries[previous].(iterateNext := next)];
      } else {
        head := next;
      }
      assert heap.entries == IterateRemove(before, e);
      list := list[..k] + list[k + 1..];
    }

    /** unlink_entry() */
    method UnlinkEntry(e: Ptr, b: nat, ghost k: nat)
      requires Linked() && k < |list| && list[k] == e
      requires b == BucketOf(hash, heap.entries[e].key, hashKey, |buckets|)
      modifies heap, this`buckets, this`chains, this`head, this`tail, this`nEntries, this`list
      ensures Linked() && list == old(list)[..k] + old(list)[k + 1..] && |buckets| == old(|buckets|)
      ensures SameData(old(heap.entries), heap.entries) &&
              OnlyThese(old(heap.entries), heap.entries, Members(old(list)))
      ensures |heap.entries| == |old(heap.entries)|
    {
      ghost var members, before := Members(list), heap.entries;
      DistinctWithout(list, |before|, k);
      UnlinkList(e, k);
      ghost var between := heap.entries;
      BucketsKept(before, between, buckets, chains, hash, hashKey, members);
      assert between[e].key == before[e].key;
      buckets, chains := PopBucket(buckets, e, b, chains, hashKey, members);
      assert Members(list) == members - {e};
      IterateKept(between, heap.entries, head, tail, list, Members(list));
      nEntries := nEntries - 1;
    }

    /** hash_scan() */
    method HashScan(b: nat, key: K) returns (e: Ptr, ghost k: nat)
      requires Valid() && b == BucketOf(hash, key, hashKey, |buckets|)
      ensures e != NULL ==> k < |list| && list[k] == e && heap.entries[e].key == key
      ensures e == NULL ==> forall i :: 0 <= i < |list| ==> heap.entries[list[i]].key != key
    {
      ghost var chain, i := chains[b], 0;
      assert BucketChain(heap.entries, buckets[b], chain);
      assert Homed(heap.entries, chain, b, hash, hashKey, |buckets|, Members(list));
      k := 0;
      e := buckets[b];
      while e != NULL
        invariant i <= |chain| && e == At(chain, i)
        invariant forall j :: 0 <= j < i ==> heap.entries[chain[j]].key != key
        decreases |chain| - i
      {
        if heap.entries[e].key == key {
          k :| 0 <= k < |list| && list[k] == e;
          return;
        }
        assert BucketNode(heap.entries, chain, i);
        e := heap.entries[e].bucketNext;
        i := i + 1;
      }
      forall j | 0 <= j < |list|
        ensures heap.entries[list[j]].key != key
      {
        assert list[j] in Members(list);
      }
    }

    /** One entry goes from the old table to the new one. */
    method Rehash(e: Ptr, table: seq<Ptr>, n: seq<Ptr>, newKey: nat, ghost oldChains: seq<seq<Ptr>>,
                  ghost newChains: seq<seq<Ptr>>, ghost rest: set<Ptr>, ghost moved: set<Ptr>)
      returns (table': seq<Ptr>, n': seq<Ptr>, ghost oldChains': seq<seq<Ptr>>, ghost newChains': seq<seq<Ptr>>)
      requires Buckets(heap.entries, table, oldChains, hash, hashKey, rest) &&
               Buckets(heap.entries, n, newChains, hash, newKey, moved)
      requires e in rest && rest !! moved
      modifies heap
      ensures Buckets(heap.entries, table', oldChains', hash, hashKey, rest - {e})
      ensures Buckets(heap.entries, n', newChains', hash, newKey, moved + {e})
      ensures |table'| == |table| && |n'| == |n|
      ensures KeepsIteration(old(heap.entries), heap.entries) &&
              OnlyThese(old(heap.entries), heap.entries, rest + moved)
    {
      ghost var before := heap.entries;
      var oldBucket := BucketOf(hash, heap.entries[e].key, hashKey, |table|);
      table', oldChains' := PopBucket(table, e, oldBucket, oldChains, hashKey, rest);
      ghost var between := heap.entries;
      BucketsKept(before, between, n, newChains, hash, newKey, moved);
      var newBucket := BucketOf(hash, heap.entries[e].key, newKey, |n|);
      n', newChains' := PushBucket(n, e, newBucket, newChains, newKey, moved);
      BucketsKept(between, heap.entries, table', oldChains', hash, hashKey, rest - {e});
    }

    /** All entries, in the order of the list, between two tables. */
    ghost predicate Halfway(k: nat, oldChains: seq<seq<Ptr>>, n: seq<Ptr>, newChains: seq<seq<Ptr>>, newKey: nat)
      reads this, heap
    {
      && k <= |list|
      && IterateList(heap.entries, head, tail, list)
      && Buckets(heap.entries, buckets, oldChains, hash, hashKey, Members(list[k..]))
      && Buckets(heap.entries, n, newChains, hash, newKey, Members(list[..k]))
    }

    method RehashOne(i: Ptr, n: seq<Ptr>, newKey: nat, ghost k: nat, ghost newChains: seq<seq<Ptr>>)
      returns (n': seq<Ptr>, ghost newChains': seq<seq<Ptr>>)
      requires Halfway(k, chains, n, newChains, newKey) && k < |list| && i == list[k]
      modifies heap, this`buckets, this`chains
      ensures Halfway(k + 1, chains, n', newChains', newKey) && |n'| == |n|
      ensures KeepsIteration(old(heap.entries), heap.entries) &&
              OnlyThese(old(heap.entries), heap.entries, Members(list))
    {
      ghost var pool := heap.entries;
      Split(list, |pool|, k);
      buckets, n', chains, newChains' := Rehash(i, buckets, n, newKey, chains, newChains, Members(list[k..]),
                                                Members(list[..k]));
      IterateKept(pool, heap.entries, head, tail, list, Members(list));
    }

    /** The loop of resize_buckets(). */
    method RehashAll(m: nat, newKey: nat) returns (n: seq<Ptr>, ghost newChains: seq<seq<Ptr>>)
      requires Linked() && m > 0
      modifies heap, this`buckets, this`chains
      ensures IterateList(heap.entries, head, tail, list) &&
              Buckets(heap.entries, n, newChains, hash, newKey, Members(list))
      ensures |n| == m
      ensures KeepsIteration(old(heap.entries), heap.entries) &&
              OnlyThese(old(heap.entries), heap.entries, Members(list))
    {
      n := seq(m, _ => NULL);
      newChains := seq(m, _ => []);
      ghost var k := 0;
      EmptyBuckets(heap.entries, n, newChains, hash, newKey);
      assert list[0..] == list && list[..0] == [];
      var i := head;
      while i != NULL
        invariant Halfway(k, chains, n, newChains, newKey) && |n| == m && i == At(list, k)
        invariant KeepsIteration(old(heap.entries), heap.entries) &&
                  OnlyThese(old(heap.entries), heap.entries, Members(list))
        decreases |list| - k
      {
        n, newChains := RehashOne(i, n, newKey, k, newChains);
        assert IterateNode(heap.entries, list, k);
        i := heap.entries[i].iterateNext;
        k := k + 1;
      }
      assert list[..k] == list;
    }

    /** resize_buckets(): when three quarters full, a larger table under another hash key. */
    method ResizeBuckets(newKey: nat) returns (resized: bool)
      requires Valid()
      modifies heap, this`buckets, this`chains, this`hashKey
      ensures Valid() && list == old(list) && Contents() == old(Contents())
      ensures resized <==> 4 * nEntries >= 3 * |old(buckets)|
      ensures resized ==> |buckets| == (nEntries + 1) * 4 - 1 && hashKey == newKey
      ensures !resized ==> buckets == old(buckets) && hashKey == old(hashKey) && heap.entries == old(heap.entries)
      ensures SameData(old(heap.entries), heap.entries) && OnlyThese(old(heap.entries), heap.entries, Members(list))
      ensures |heap.entries| == |old(heap.entries)|
    {
      if nEntries * 4 < |buckets| * 3 {
        return false;
      }
      ghost var before := heap.entries;
      var m := (nEntries + 1) * 4 - 1;
      var n;
      ghost var newChains;
      n, newChains := RehashAll(m, newKey);
      buckets, chains, hashKey := n, newChains, newKey;
      KeysApartKept(before, heap.entries, list);
      ItemsSame(before, heap.entries, list, list, |list|);
      return true;
    }

    lemma Found(key: K, k: nat)
      requires Valid() && k < |list| && heap.entries[list[k]].key == key
      ensures Find(Contents(), key) == k && Contents()[k] == (key, heap.entries[list[k]].value)
    {
      ItemAt(heap.entries, list, |list|, k);
      forall i | 0 <= i < k
        ensures Contents()[i].0 != key
      {
        ItemAt(heap.entries, list, |list|, i);
        assert KeyApart(heap.entries, list, i, k);
      }
      FindFacts(Contents(), 0, key, k);
    }

    lemma NotFound(key: K)
      requires Valid() && forall i :: 0 <= i < |list| ==> heap.entries[list[i]].key != key
      ensures Find(Contents(), key) == |Contents()|
    {
      forall i | 0 <= i < |list|
        ensures Contents()[i].0 != key
      {
        ItemAt(heap.entries, list, |list|, i);
      }
      FindFacts(Contents(), 0, key, |list|);
    }

    /** The entry for a key, by its bucket. */
    method Scan(key: K) returns (e: Ptr, ghost k: nat)
      requires Valid()
      ensures k == Find(Contents(), key)
      ensures e == NULL <==> k == |Contents()|
      ensures e != NULL ==>
                k < |list| && e == list[k] &&
                Contents()[k] == (heap.entries[e].key, heap.entries[e].value) == (key, heap.entries[e].value)
    {
      var b := BucketOf(hash, key, hashKey, |buckets|);
      e, k := HashScan(b, key);
      if e == NULL {
        NotFound(key);
        k := |list|;
      } else {
        Found(key, k);
      }
    }

    method Allocate(key: K, value: V) returns (e: Ptr)
      requires Valid()
      modifies heap
      ensures Valid() && Contents() == old(Contents()) && SameData(old(heap.entries), heap.entries)
      ensures OnlyThese(old(heap.entries), heap.entries, {})
      ensures 0 < e == |old(heap.entries)| < |heap.entries| && e !in list
      ensures heap.entries[e].key == key && heap.entries[e].value == value
    {
      ghost var before := heap.entries;
      e := |heap.entries|;
      heap.entries := heap.entries + [Entry(key, value, NULL, NULL, NULL, NULL)];
      IterateKept(before, heap.entries, head, tail, list, Members(list));
      BucketsKept(before, heap.entries, buckets, chains, hash, hashKey, Members(list));
      KeysApartKept(before, heap.entries, list);
      ItemsSame(before, heap.entries, list, list, |list|);
    }

    /** An entry with a new key goes to the end of the list. */
    method AppendEntry(e: Ptr, b: nat)
      requires Valid() && 0 < e < |heap.entries| && e !in list
      requires b == BucketOf(hash, heap.entries[e].key, hashKey, |buckets|)
      requires Find(Contents(), heap.entries[e].key) == |Contents()|
      modifies heap, this`buckets, this`chains, this`head, this`tail, this`nEntries, this`list
      ensures Valid() && list == old(list) + [e]
      ensures Contents() == old(Contents()) + [(old(heap.entries[e].key), old(heap.entries[e].value))]
      ensures SameData(old(heap.entries), heap.entries) && OnlyThese(old(heap.entries), heap.entries, Members(list))
      ensures |heap.entries| == |old(heap.entries)|
    {
      ghost var before, list0 := heap.entries, list;
      forall k | 0 <= k < |list|
        ensures before[list[k]].key != before[e].key
      {
        ItemAt(before, list, |list|, k);
        NotAt(Contents(), 0, before[e].key, k);
      }
      KeysApartAppended(before, list, e);
      LinkEntry(e, b);
      KeysApartKept(before, heap.entries, list);
      ItemsSame(before, heap.entries, list0, list, |list0|);
      assert heap.entries[e].key == before[e].key && heap.entries[e].value == before[e].value;
    }

    /** remove_entry() */
    method RemoveEntry(e: Ptr, ghost k: nat)
      requires Valid() && k < |list| && list[k] == e
      modifies heap, this`buckets, this`chains, this`head, this`tail, this`nEntries, this`list
      ensures Valid() && list == old(list)[..k] + old(list)[k + 1..] && e !in list
      ensures Contents() == Drop(old(Contents()), k)
      ensures SameData(old(heap.entries), heap.entries) &&
              OnlyThese(old(heap.entries), heap.entries, Members(old(list)))
      ensures |heap.entries| == |old(heap.entries)|
    {
      ghost var before, list0 := heap.entries, list;
      var b := BucketOf(hash, heap.entries[e].key, hashKey, |buckets|);
      UnlinkEntry(e, b, k);
      ItemRemoved(before, heap.entries, list0, list, k);
    }

    /** An entry's key is replaced by an equal one, or its value. */
    method SetEntry(e: Ptr, key: K, value: V, ghost k: nat)
      requires Valid() && k < |list| && list[k] == e && heap.entries[e].key == key
      modifies heap
      ensures Valid() && Contents() == old(Contents())[k := (key, value)]
      ensures OnlyThese(old(heap.entries), heap.entries, Members(list)) && |heap.entries| == |old(heap.entries)|
    {
      ghost var before := heap.entries;
      ItemsReplaced(before, list, k, key, value);
      heap.entries := heap.entries[e := heap.entries[e].(key := key, value := value)];
      IterateKept(before, heap.entries, head, tail, list, Members(list));
      BucketsKept(before, heap.entries, buckets, chains, hash, hashKey, Members(list));
      KeysSame(before, heap.entries, list);
    }

    /** hashmap_put() */
    method Put(key: K, value: V, newKey: nat) returns (r: int)
      requires Valid()
      modifies this, heap
      ensures Valid() && OnlyThese(old(heap.entries), heap.entries, Members(old(list)))
      ensures forall e :: e in list ==> e in old(list) || e >= |old(heap.entries)|
      ensures var items, k := old(Contents()), Find(old(Contents()), key);
              if k < |items| then r == (if items[k].1 == value then 0 else -17) && Contents() == items
              else r == 1 && Contents() == items + [(key, value)]
    {
      var e;
      ghost var k;
      e, k := Scan(key);
      if e != NULL {
        return if heap.entries[e].value == value then 0 else -EEXIST;
      }
      var _ := ResizeBuckets(newKey);
      e := Allocate(key, value);
      AppendEntry(e, BucketOf(hash, key, hashKey, |buckets|));
      return 1;
    }

    /** hashmap_replace() */
    method Replace(key: K, value: V, newKey: nat) returns (r: int)
      requires Valid()
      modifies this, heap
      ensures Valid() && OnlyThese(old(heap.entries), heap.entries, Members(old(list)))
      ensures var items, k := old(Contents()), Find(old(Contents()), key);
              if k < |items| then r == 0 && Contents() == items[k := (key, value)]
              else r == 1 && Contents() == items + [(key, value)]
    {
      var e;
      ghost var k;
      e, k := Scan(key);
      if e != NULL {
        SetEntry(e, key, value, k);
        return 0;
      }
      r := Put(key, value, newKey);
    }

    /** hashmap_update() */
    method Update(key: K, value: V) returns (r: int)
      requires Valid()
      modifies heap
      ensures Valid() && OnlyThese(old(heap.entries), heap.entries, Members(old(list)))
      ensures var items, k := old(Contents()), Find(old(Contents()), key);
              if k < |items| then r == 0 && Contents() == items[k := (key, value)]
              else r == -2 && Contents() == items
    {
      var e;
      ghost var k;
      e, k := Scan(key);
      if e == NULL {
        return -ENOENT;
      }
      SetEntry(e, key, value, k);
      return 0;
    }

    /** hashmap_get() and hashmap_contains() */
    method Get(key: K) returns (found: bool, value: V)
      requires Valid()
      ensures var k := Find(Contents(), key);
              (found <==> k < |Contents()|) && (found ==> Contents()[k] == (key, value))
    {
      value := *;
      var e;
      ghost var k;
      e, k := Scan(key);
      found := e != NULL;
      if found {
        value := heap.entries[e].value;
      }
    }

    /** hashmap_remove() */
    method Remove(key: K) returns (found: bool, value: V)
      requires Valid()
      modifies this, heap
      ensures Valid() && OnlyThese(old(heap.entries), heap.entries, Members(old(list)))
      ensures var items, k := old(Contents()), Find(old(Contents()), key);
              && (found <==> k < |items|)
              && if found then items[k] == (key, value) && Contents() == Drop(items, k) else Contents() == items
    {
      value := *;
      var e;
      ghost var k;
      e, k := Scan(key);
      found := e != NULL;
      if found {
        value := heap.entries[e].value;
        RemoveEntry(e, k);
      }
    }

    /** The entry goes to the end of the list, with a key that is not there. */
    method Rekey(e: Ptr, newKey: K, value: V, ghost k: nat)
      requires Valid() && k < |list| && list[k] == e
      requires Find(Drop(Contents(), k), newKey) == |Contents()| - 1
      modifies this, heap
      ensures Valid() && Contents() == Drop(old(Contents()), k) + [(newKey, value)]
      ensures OnlyThese(old(heap.entries), heap.entries, Members(old(list)))
    {
      DistinctWithout(list, |heap.entries|, k);
      RemoveEntry(e, k);
      Relabel(e, newKey, value);
      AppendEntry(e, BucketOf(hash, newKey, hashKey, |buckets|));
    }

    /** An entry that is not linked gets another key and value. */
    method Relabel(e: Ptr, key: K, value: V)
      requires Valid() && 0 < e < |heap.entries| && e !in list
      modifies heap
      ensures Valid() && Contents() == old(Contents())
      ensures heap.entries == old(heap.entries)[e := old(heap.entries[e]).(key := key, value := value)]
    {
      ghost var before := heap.entries;
      heap.entries := heap.entries[e := heap.entries[e].(key := key, value := value)];
      IterateKept(before, heap.entries, head, tail, list, Members(list));
      BucketsKept(before, heap.entries, buckets, chains, hash, hashKey, Members(list));
      KeysSame(before, heap.entries, list);
      ItemsSame(before, heap.entries, list, list, |list|);
    }

    /** hashmap_remove_and_put() */
    method RemoveAndPut(oldKey: K, newKey: K, value: V) returns (r: int)
      requires Valid()
      modifies this, heap
      ensures Valid() && OnlyThese(old(heap.entries), heap.entries, Members(old(list)))
      ensures var items := old(Contents());
              if Find(items, oldKey) == |items| then r == -2 && Contents() == items
              else if Find(items, newKey) < |items| then r == -17 && Contents() == items
              else r == 0 && Contents() == Drop(items, Find(items, oldKey)) + [(newKey, value)]
    {
      var e, other;
      ghost var k, l;
      e, k := Scan(oldKey);
      if e == NULL {
        return -ENOENT;
      }
      other, l := Scan(newKey);
      if other != NULL {
        return -EEXIST;
      }
      UniqueItems();
      GoneWithout(Contents(), oldKey, newKey);
      Rekey(e, newKey, value, k);
      return 0;
    }

    /** Another entry makes room for its key. */
    method RemoveOther(other: Ptr, newKey: K, e: Ptr, oldKey: K, ghost k: nat, ghost l: nat) returns (ghost k': nat)
      requires Valid() && k == Find(Contents(), oldKey) && k < |list| && e == list[k]
      requires l == Find(Contents(), newKey) && l < |list| && other == list[l] && e != other
      modifies this, heap
      ensures Valid() && OnlyThese(old(heap.entries), heap.entries, Members(old(list))) &&
              Members(list) <= Members(old(list))
      ensures Contents() == WithoutKey(old(Contents()), newKey)
      ensures k' == Find(Contents(), oldKey) && k' < |list| && e == list[k']
      ensures Find(Contents(), newKey) == |Contents()|
    {
      ghost var items := Contents();
      UniqueItems();
      DropIsWithout(items, newKey);
      FindAfterDrop(items, l, oldKey);
      GoneWithout(items, newKey, newKey);
      DistinctWithout(list, |heap.entries|, l);
      RemoveEntry(other, l);
      k' := if l < k then k - 1 else k;
    }

    /** No other entry has the new key any more. */
    method MakeRoom(e: Ptr, oldKey: K, newKey: K, ghost k: nat) returns (ghost k': nat)
      requires Valid() && k == Find(Contents(), oldKey) && k < |list| && e == list[k] && heap.entries[e].key == oldKey
      modifies this, heap
      ensures Valid() && OnlyThese(old(heap.entries), heap.entries, Members(old(list)))
      ensures Members(list) <= Members(old(list)) && Unique(Contents())
      ensures k' == Find(Contents(), oldKey) && k' < |list| && e == list[k']
      ensures WithoutKey(Contents(), oldKey) == WithoutKey(WithoutKey(old(Contents()), newKey), oldKey)
      ensures Find(Contents(), newKey) == |Contents()| || newKey == oldKey
    {
      var other;
      ghost var l;
      other, l := Scan(newKey);
      k' := k;
      if other != NULL && e != other {
        k' := RemoveOther(other, newKey, e, oldKey, k, l);
        UniqueItems();
      } else {
        UniqueItems();
        RoomAlready(Contents(), oldKey, newKey);
      }
    }

    /** What is left without the two keys, and that the new one is not in it. */
    method MakeRoomFor(e: Ptr, oldKey: K, newKey: K, ghost k: nat) returns (ghost k': nat)
      requires Valid() && k == Find(Contents(), oldKey) && k < |list| && e == list[k] && heap.entries[e].key == oldKey
      modifies this, heap
      ensures Valid() && OnlyThese(old(heap.entries), heap.entries, Members(old(list)))
      ensures Members(list) <= Members(old(list)) && k' < |list| && e == list[k']
      ensures Drop(Contents(), k') == WithoutKey(WithoutKey(old(Contents()), newKey), oldKey)
      ensures Find(Drop(Contents(), k'), newKey) == |Contents()| - 1
    {
      k' := MakeRoom(e, oldKey, newKey, k);
      DropIsWithout(Contents(), oldKey);
      GoneWithout(Contents(), oldKey, newKey);
    }

    /** hashmap_remove_and_replace() */
    method RemoveAndReplace(oldKey: K, newKey: K, value: V) returns (r: int)
      requires Valid()
      modifies this, heap
      ensures Valid() && OnlyThese(old(heap.entries), heap.entries, Members(old(list)))
      ensures var items := old(Contents());
              if Find(items, oldKey) == |items| then r == -2 && Contents() == items
              else r == 0 && Contents() == WithoutKey(WithoutKey(items, newKey), oldKey) + [(newKey, value)]
    {
      var e;
      ghost var k;
      e, k := Scan(oldKey);
      if e == NULL {
        return -ENOENT;
      }
      k := MakeRoomFor(e, oldKey, newKey, k);
      Rekey(e, newKey, value, k);
      return 0;
    }

    lemma UniqueItems()
      requires Valid()
      ensures Unique(Contents())
    {
      forall i, j | 0 <= i < j < |list|
        ensures Contents()[i].0 != Contents()[j].0
      {
        ItemAt(heap.entries, list, |list|, i);
        ItemAt(heap.entries, list, |list|, j);
        assert KeyApart(heap.entries, list, i, j);
      }
    }

    /** hashmap_steal_first() */
    method StealFirst() returns (found: bool, value: V)
      requires Valid()
      modifies this, heap
      ensures Valid() && OnlyThese(old(heap.entries), heap.entries, Members(old(list)))
      ensures var items := old(Contents());
              && (found <==> items != [])
              && if found then value == items[0].1 && Contents() == items[1..] else Contents() == []
    {
      value := *;
      found := head != NULL;
      if found {
        value := heap.entries[head].value;
        ItemAt(heap.entries, list, |list|, 0);
        RemoveEntry(head, 0);
      }
    }

    /** hashmap_clear() */
    method Clear()
      requires Valid()
      modifies this, heap
      ensures Valid() && Contents() == [] && OnlyThese(old(heap.entries), heap.entries, Members(old(list)))
    {
      while head != NULL
        invariant Valid() && Members(list) <= Members(old(list)) &&
                  OnlyThese(old(heap.entries), heap.entries, Members(old(list)))
        decreases |list|
      {
        DistinctWithout(list, |heap.entries|, 0);
        RemoveEntry(head, 0);
      }
    }

    /** Another map on the same store, none of whose entries was touched. */
    lemma NotTouched(before: seq<Entry<K, V>>, members: set<Ptr>)
      requires |before| > 0 && OnlyThese(before, heap.entries, members) && members !! Members(list)
      requires IterateList(before, head, tail, list) && Buckets(before, buckets, chains, hash, hashKey, Members(list))
      requires nEntries == |list| && KeysApart(before, list)
      ensures Valid() && Contents() == Items(before, list, |list|)
    {
      IterateKept(before, heap.entries, head, tail, list, Members(list));
      BucketsKept(before, heap.entries, buckets, chains, hash, hashKey, Members(list));
      forall k | 0 <= k < |list|
        ensures heap.entries[list[k]] == before[list[k]]
      {
        assert list[k] in Members(list);
      }
      forall i, j | 0 <= i < j < |list|
        ensures KeyApart(heap.entries, list, i, j)
      {
        assert KeyApart(before, list, i, j);
      }
      ItemsSame(before, heap.entries, list, list, |list|);
    }

    /** hashmap_move_one(): the entry itself changes maps. */
    method MoveOne(other: Hashmap<K, V>, key: K) returns (r: int)
      requires Valid() && other.Valid() && Beside(other)
      modifies this, other, heap
      ensures Valid() && other.Valid() && Beside(other)
      ensures var mine, theirs := old(Contents()), old(other.Contents());
              var k := Find(theirs, key);
              if Find(mine, key) < |mine| then r == -17 && Contents() == mine && other.Contents() == theirs
              else if k == |theirs| then r == -2 && Contents() == mine && other.Contents() == theirs
              else r == 0 && Contents() == mine + [theirs[k]] && other.Contents() == Drop(theirs, k)
    {
      var e, mine;
      ghost var k, l;
      mine, l := Scan(key);
      if mine != NULL {
        return -EEXIST;
      }
      e, k := other.Scan(key);
      if e == NULL {
        return -ENOENT;
      }
      Take(other, e, k);
      return 0;
    }

    ghost predicate Beside(other: Hashmap<K, V>)
      reads this, other
    {
      other != this && other.heap == heap && Members(list) !! Members(other.list)
    }

    /** remove_entry() without the release, next to another map. */
    method GiveUp(e: Ptr, other: Hashmap<K, V>, ghost k: nat)
      requires Valid() && other.Valid() && Beside(other) && k < |list| && list[k] == e
      modifies this, heap
      ensures Valid() && other.Valid() && Beside(other) && e !in list && e !in other.list
      ensures list == old(list)[..k] + old(list)[k + 1..] && Members(list) == old(Members(list)) - {e}
      ensures Contents() == Drop(old(Contents()), k) && other.Contents() == old(other.Contents())
      ensures SameData(old(heap.entries), heap.entries) && |heap.entries| == |old(heap.entries)|
    {
      ghost var before, mine := heap.entries, Members(list);
      DistinctWithout(list, |before|, k);
      assert e in mine;
      RemoveEntry(e, k);
      other.NotTouched(before, mine);
    }

    /** link_entry(), next to another map. */
    method Accept(e: Ptr, other: Hashmap<K, V>)
      requires Valid() && other.Valid() && Beside(other) && 0 < e < |heap.entries| && e !in list && e !in other.list
      requires Find(Contents(), heap.entries[e].key) == |Contents()|
      modifies this, heap
      ensures Valid() && other.Valid() && Beside(other)
      ensures list == old(list) + [e] && Members(list) == old(Members(list)) + {e}
      ensures Contents() == old(Contents()) + [(old(heap.entries[e].key), old(heap.entries[e].value))]
      ensures other.Contents() == old(other.Contents())
      ensures SameData(old(heap.entries), heap.entries) && |heap.entries| == |old(heap.entries)|
    {
      ghost var before := heap.entries;
      AppendEntry(e, BucketOf(hash, heap.entries[e].key, hashKey, |buckets|));
      other.NotTouched(before, Members(list));
    }

    /** An entry of the other map, with a key that is not here, is taken over. */
    method Take(other: Hashmap<K, V>, e: Ptr, ghost k: nat)
      requires Valid() && other.Valid() && Beside(other)
      requires k < |other.list| && other.list[k] == e && Find(Contents(), heap.entries[e].key) == |Contents()|
      modifies this, other, heap
      ensures Valid() && other.Valid() && Beside(other)
      ensures list == old(list) + [e] && other.list == old(other.list)[..k] + old(other.list)[k + 1..]
      ensures Contents() == old(Contents()) + [old(other.Contents())[k]] &&
              other.Contents() == Drop(old(other.Contents()), k)
      ensures SameData(old(heap.entries), heap.entries) && |heap.entries| == |old(heap.entries)|
    {
      ItemAt(heap.entries, other.list, |other.list|, k);
      other.GiveUp(e, this, k);
      Accept(e, other);
    }

    /** hashmap_put(), next to another map. */
    method PutBeside(other: Hashmap<K, V>, key: K, value: V, newKey: nat) returns (r: int)
      requires Valid() && other.Valid() && Beside(other)
      modifies this, heap
      ensures Valid() && other.Valid() && Beside(other) && other.Contents() == old(other.Contents())
      ensures var items, k := old(Contents()), Find(old(Contents()), key);
              if k < |items| then Contents() == items else r == 1 && Contents() == items + [(key, value)]
    {
      ghost var before, mine := heap.entries, Members(list);
      r := Put(key, value, newKey);
      other.NotTouched(before, mine);
    }

    /** hashmap_merge(): what is there already stays. */
    method Merge(other: Hashmap<K, V>, newKey: nat)
      requires Valid() && other.Valid() && Beside(other)
      modifies this, heap
      ensures Valid() && other.Valid() && other.Contents() == old(other.Contents())
      ensures Contents() == Merged(old(Contents()), other.Contents(), |other.Contents()|)
    {
      ghost var k, theirs := 0, other.Contents();
      var e := other.head;
      while e != NULL
        invariant Valid() && other.Valid() && Beside(other) && other.Contents() == theirs
        invariant k <= |other.list| == |theirs| && e == At(other.list, k)
        invariant Contents() == Merged(old(Contents()), theirs, k)
        decreases |theirs| - k
      {
        ItemAt(heap.entries, other.list, |other.list|, k);
        var _ := PutBeside(other, heap.entries[e].key, heap.entries[e].value, newKey);
        assert IterateNode(heap.entries, other.list, k);
        e := heap.entries[e].iterateNext;
        k := k + 1;
      }
    }

    /** hashmap_move(): entries whose keys are here already stay where they are. */
    method Move(other: Hashmap<K, V>)
      requires Valid() && other.Valid() && Beside(other)
      modifies this, other, heap
      ensures Valid() && other.Valid() && Beside(other)
      ensures var mine, theirs := old(Contents()), old(other.Contents());
              Contents() == Merged(mine, theirs, |theirs|) && other.Contents() == LeftBehind(mine, theirs, |theirs|)
    {
      ghost var i, mine, theirs := 0, Contents(), other.Contents();
      AllToMove(theirs);
      var e := other.head;
      while e != NULL
        invariant Valid() && other.Valid() && Beside(other) && Moving(other, mine, theirs, i)
        invariant e == At(other.list, |LeftBehind(mine, theirs, i)|)
        decreases |theirs| - i
      {
        e := MoveNext(other, e, mine, theirs, i);
        i := i + 1;
      }
      NothingToMove(LeftBehind(mine, theirs, i), theirs, i);
    }

    static lemma AllToMove(theirs: seq<(K, V)>)
      ensures [] + theirs[0..] == theirs
    {
    }

    static lemma NothingToMove(left: seq<(K, V)>, theirs: seq<(K, V)>, i: nat)
      requires i == |theirs|
      ensures left + theirs[i..] == left
    {
    }

    /** The first i items of the other map have been looked at. */
    ghost predicate Moving(other: Hashmap<K, V>, mine: seq<(K, V)>, theirs: seq<(K, V)>, i: nat)
      requires Linked() && other.Linked()
      reads this, other, heap, other.heap
    {
      && i <= |theirs|
      && Contents() == Merged(mine, theirs, i)
      && other.Contents() == LeftBehind(mine, theirs, i) + theirs[i..]
    }

    method MoveNext(other: Hashmap<K, V>, e: Ptr, ghost mine: seq<(K, V)>, ghost theirs: seq<(K, V)>, ghost i: nat)
      returns (n: Ptr)
      requires Valid() && other.Valid() && Beside(other) && Moving(other, mine, theirs, i)
      requires e == At(other.list, |LeftBehind(mine, theirs, i)|) != NULL
      modifies this, other, heap
      ensures Valid() && other.Valid() && Beside(other) && i < |theirs| && Moving(other, mine, theirs, i + 1)
      ensures n == At(other.list, |LeftBehind(mine, theirs, i + 1)|)
    {
      ghost var left := LeftBehind(mine, theirs, i);
      ItemAt(heap.entries, other.list, |other.list|, |left|);
      LeftSplit(left, theirs, i);
      assert IterateNode(heap.entries, other.list, |left|);
      n := heap.entries[e].iterateNext;
      var here;
      ghost var l;
      here, l := Scan(heap.entries[e].key);
      if here == NULL {
        Take(other, e, |left|);
      }
    }
  }

  lemma LeftSplit<K, V>(left: seq<(K, V)>, theirs: seq<(K, V)>, i: nat)
    requires i < |theirs|
    ensures (left + theirs[i..])[|left|] == theirs[i]
    ensures Drop(left + theirs[i..], |left|) == left + theirs[i + 1..]
    ensures left + theirs[i..] == left + [theirs[i]] + theirs[i + 1..]
    ensures left + [] == left
  {
  }

  /** The items of a map when those of another are put, the first n of them. */
  function Merged<K(==), V>(mine: seq<(K, V)>, theirs: seq<(K, V)>, n: nat): seq<(K, V)>
    requires n <= |theirs|
  {
    if n == 0 then mine
    else
      var m := Merged(mine, theirs, n - 1);
      if Find(m, theirs[n - 1].0) < |m| then m else m + [theirs[n - 1]]
  }

  /** Of the first n items those whose keys were there already. */
  function LeftBehind<K(==), V>(mine: seq<(K, V)>, theirs: seq<(K, V)>, n: nat): (left: seq<(K, V)>)
    requires n <= |theirs|
    ensures |left| <= n
  {
    if n == 0 then []
    else
      var m := Merged(mine, theirs, n - 1);
      LeftBehind(mine, theirs, n - 1) + if Find(m, theirs[n - 1].0) < |m| then [theirs[n - 1]] else []
  }

  /** The position of the first item from i on with this key, or the number of items. */
  function FindFrom<K(==), V>(items: seq<(K, V)>, i: nat, key: K): (k: nat)
    requires i <= |items|
    ensures i <= k <= |items|
    decreases |items| - i
  {
    if i == |items| || items[i].0 == key then i else FindFrom(items, i + 1, key)
  }

  function Find<K(==), V>(items: seq<(K, V)>, key: K): (k: nat)
    ensures k <= |items|
  {
    FindFrom(items, 0, key)
  }

  lemma {:induction false} FindFacts<K, V>(items: seq<(K, V)>, i: nat, key: K, k: nat)
    requires i <= k <= |items| && (forall j :: i <= j < k ==> items[j].0 != key) && (k < |items| ==> items[k].0 == key)
    ensures FindFrom(items, i, key) == k
    decreases k - i
  {
    if i < k {
      FindFacts(items, i + 1, key, k);
    }
  }

  lemma {:induction false} NotAt<K, V>(items: seq<(K, V)>, i: nat, key: K, k: nat)
    requires i <= k < |items| && FindFrom(items, i, key) == |items|
    ensures items[k].0 != key
    decreases k - i
  {
    if i < k {
      NotAt(items, i + 1, key, k);
    }
  }

  ghost predicate Unique<K, V>(items: seq<(K, V)>) {
    forall i, j :: 0 <= i < j < |items| ==> items[i].0 != items[j].0
  }

  /** The items but those with this key, in their order. */
  function WithoutKey<K(==), V>(items: seq<(K, V)>, key: K): seq<(K, V)> {
    if items == [] then []
    else
      var n := |items| - 1;
      WithoutKey(items[..n], key) + if items[n].0 == key then [] else [items[n]]
  }

  lemma {:induction false} WithoutAbsent<K, V>(items: seq<(K, V)>, key: K)
    requires forall i :: 0 <= i < |items| ==> items[i].0 != key
    ensures WithoutKey(items, key) == items
    decreases |items|
  {
    if items != [] {
      WithoutAbsent(items[..|items| - 1], key);
    }
  }

  lemma {:induction false} WithoutFound<K, V>(items: seq<(K, V)>, key: K, k: nat)
    requires Unique(items) && k < |items| && items[k].0 == key
    ensures WithoutKey(items, key) == Drop(items, k)
    decreases |items|
  {
    var n := |items| - 1;
    if k == n {
      WithoutAbsent(items[..n], key);
    } else {
      WithoutFound(items[..n], key, k);
      assert Drop(items, k) == Drop(items[..n], k) + [items[n]];
    }
  }

  lemma {:induction false} WithoutTwice<K, V>(items: seq<(K, V)>, key: K)
    ensures WithoutKey(WithoutKey(items, key), key) == WithoutKey(items, key)
    decreases |items|
  {
    if items != [] {
      var n := |items| - 1;
      var before := WithoutKey(items[..n], key);
      WithoutTwice(items[..n], key);
      assert before + [] == before;
      if items[n].0 != key {
        assert (before + [items[n]])[..|before|] == before;
      }
    }
  }

  lemma {:induction false} FindHits<K, V>(items: seq<(K, V)>, i: nat, key: K)
    requires i <= |items|
    ensures var k := FindFrom(items, i, key);
            (k < |items| ==> items[k].0 == key) && forall j :: i <= j < k ==> items[j].0 != key
    decreases |items| - i
  {
    if i < |items| && items[i].0 != key {
      FindHits(items, i + 1, key);
    }
  }

  /** A key that is missing, or is taken out anyway, need not be taken out before. */
  lemma RoomAlready<K, V>(items: seq<(K, V)>, oldKey: K, newKey: K)
    requires Unique(items) && (Find(items, newKey) == |items| || newKey == oldKey)
    ensures WithoutKey(items, oldKey) == WithoutKey(WithoutKey(items, newKey), oldKey)
  {
    WithoutTwice(items, oldKey);
    DropIsWithout(items, newKey);
  }

  lemma DropIsWithout<K, V>(items: seq<(K, V)>, key: K)
    requires Unique(items)
    ensures var k := Find(items, key);
            WithoutKey(items, key) == if k < |items| then Drop(items, k) else items
  {
    FindHits(items, 0, key);
    var k := Find(items, key);
    if k < |items| {
      WithoutFound(items, key, k);
    } else {
      WithoutAbsent(items, key);
    }
  }

  /** Taking out an item keeps another key's item. */
  lemma FindAfterDrop<K, V>(items: seq<(K, V)>, l: nat, key: K)
    requires Unique(items) && l < |items| && Find(items, key) < |items| && Find(items, key) != l
    ensures var k := Find(items, key);
            Find(Drop(items, l), key) == if l < k then k - 1 else k
  {
    FindHits(items, 0, key);
    var k := Find(items, key);
    FindFacts(Drop(items, l), 0, key, if l < k then k - 1 else k);
  }

  /** Where a key is missing, or is the one taken out, it is missing afterwards. */
  lemma GoneWithout<K, V>(items: seq<(K, V)>, oldKey: K, newKey: K)
    requires Unique(items) && Find(items, oldKey) < |items|
    requires Find(items, newKey) == |items| || newKey == oldKey
    ensures var rest := Drop(items, Find(items, oldKey)); Find(rest, newKey) == |rest|
  {
    FindHits(items, 0, oldKey);
    FindHits(items, 0, newKey);
    var rest := Drop(items, Find(items, oldKey));
    FindFacts(rest, 0, newKey, |rest|);
  }

  function Drop<K, V>(items: seq<(K, V)>, k: nat): seq<(K, V)>
    requires k < |items|
  {
    items[..k] + items[k + 1..]
  }

  lemma EmptyBuckets<K, V>(pool: seq<Entry<K, V>>, n: seq<Ptr>, chains: seq<seq<Ptr>>, hash: Hash<K>, hashKey: nat)
    requires |n| == |chains| > 0 && forall b :: 0 <= b < |n| ==> n[b] == NULL && chains[b] == []
    ensures Buckets(pool, n, chains, hash, hashKey, Members([]))
  {
    forall b | 0 <= b < |n|
      ensures BucketChain(pool, n[b], chains[b]) && Homed(pool, chains[b], b, hash, hashKey, |n|, Members([]))
    {
    }
  }

  lemma MembersOfBoth(a: seq<Ptr>, b: seq<Ptr>)
    ensures Members(a + b) == Members(a) + Members(b)
  {
  }

  lemma MembersOfOne(e: Ptr)
    ensures Members([e]) == {e}
  {
  }

  /** An entry in front of a position is not behind it too. */
  lemma OnlyInFront(list: seq<Ptr>, size: nat, k: nat, x: Ptr)
    requires Distinct(list, size) && k <= |list| && x in list[..k]
    ensures x !in list[k..]
  {
    var i :| 0 <= i < k && list[i] == x;
    if x in list[k..] {
      var j :| 0 <= j < |list| - k && list[k..][j] == x;
      OnePosition(list, size, i, k + j);
      assert false;
    }
  }

  lemma Parts(list: seq<Ptr>, k: nat)
    requires k < |list|
    ensures list[k..] == [list[k]] + list[k + 1..] && list[..k + 1] == list[..k] + [list[k]]
    ensures list == list[..k] + list[k..]
  {
  }

  /** Up to a position, there, and behind it. */
  lemma Split(list: seq<Ptr>, size: nat, k: nat)
    requires Distinct(list, size) && k < |list|
    ensures Members(list[k..]) !! Members(list[..k]) && list[k] in Members(list[k..])
    ensures Members(list[k + 1..]) == Members(list[k..]) - {list[k]} &&
            Members(list[..k + 1]) == Members(list[..k]) + {list[k]}
    ensures Members(list[k..]) + Members(list[..k]) == Members(list)
  {
    Parts(list, k);
    MembersOfOne(list[k]);
    MembersOfBoth([list[k]], list[k + 1..]);
    MembersOfBoth(list[..k], [list[k]]);
    MembersOfBoth(list[..k], list[k..]);
    forall x | x in list[..k]
      ensures x !in list[k..]
    {
      OnlyInFront(list, size, k, x);
    }
    OnlyInFront(list, size, k + 1, list[k]);
  }

  /** The first of a chain is one of the members. */
  lemma FirstIsMember<K, V>(pool: seq<Entry<K, V>>, buckets: seq<Ptr>, chains: seq<seq<Ptr>>, hash: Hash<K>,
                            hashKey: nat, members: set<Ptr>, b: nat)
    requires Buckets(pool, buckets, chains, hash, hashKey, members) && b < |buckets|
    ensures buckets[b] != NULL ==> buckets[b] in members
  {
    assert BucketChain(pool, buckets[b], chains[b]) && Homed(pool, chains[b], b, hash, hashKey, |buckets|, members);
  }

  /** An entry's neighbours in its chain are members. */
  lemma NeighboursAreMembers<K, V>(pool: seq<Entry<K, V>>, buckets: seq<Ptr>, chains: seq<seq<Ptr>>, hash: Hash<K>,
                                   hashKey: nat, members: set<Ptr>, e: Ptr)
    requires Buckets(pool, buckets, chains, hash, hashKey, members) && e in members
    ensures pool[e].bucketNext != NULL ==> pool[e].bucketNext in members
    ensures pool[e].bucketPrevious != NULL ==> pool[e].bucketPrevious in members
  {
    var b := BucketOf(hash, pool[e].key, hashKey, |buckets|);
    assert BucketChain(pool, buckets[b], chains[b]) && Homed(pool, chains[b], b, hash, hashKey, |buckets|, members);
    var k :| 0 <= k < |chains[b]| && chains[b][k] == e;
    assert BucketNode(pool, chains[b], k);
  }

  ghost predicate KeepsIteration<K, V>(pool: seq<Entry<K, V>>, pool': seq<Entry<K, V>>) {
    && |pool| == |pool'|
    && forall e {:trigger pool'[e]} :: 0 <= e < |pool| ==>
         pool'[e].(bucketNext := pool[e].bucketNext, bucketPrevious := pool[e].bucketPrevious) == pool[e]
  }

  ghost predicate KeepsBuckets<K, V>(pool: seq<Entry<K, V>>, pool': seq<Entry<K, V>>) {
    && |pool| == |pool'|
    && forall e {:trigger pool'[e]} :: 0 <= e < |pool| ==>
         pool'[e].(iterateNext := pool[e].iterateNext, iteratePrevious := pool[e].iteratePrevious) == pool[e]
  }

  /** Only these entries are changed. */
  ghost predicate OnlyThese<K, V>(pool: seq<Entry<K, V>>, pool': seq<Entry<K, V>>, members: set<Ptr>) {
    |pool| <= |pool'| && forall e {:trigger pool'[e]} :: 0 <= e < |pool| && e !in members ==> pool'[e] == pool[e]
  }
}
