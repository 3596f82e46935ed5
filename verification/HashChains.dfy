/**
  The doubly linked lists of shared/hashmap.c: a chain for each bucket, and one list of
  all entries in the order of insertion.  Entries live in a pool of records; a pointer
  is an index, and 0 is NULL.
  */
module HashChains {
  type Ptr = nat
  const NULL: Ptr := 0

  datatype Entry<K, V> = Entry(key: K, value: V, bucketNext: Ptr, bucketPrevious: Ptr, iterateNext: Ptr,
                               iteratePrevious: Ptr)

  type Hash<!K> = (K, nat) -> nat

  /** The element at a position; NULL before the first and behind the last. */
  function At(list: seq<Ptr>, k: int): Ptr {
    if 0 <= k < |list| then list[k] else NULL
  }

  ghost predicate Apart(list: seq<Ptr>, i: nat, j: nat)
    requires i < |list| && j < |list|
  {
    list[i] != list[j]
  }

  /** Pointers into the pool, none of them twice. */
  ghost predicate Distinct(list: seq<Ptr>, size: nat) {
    && (forall k :: 0 <= k < |list| ==> 0 < list[k] < size)
    && (forall i, j {:trigger Apart(list, i, j)} :: 0 <= i < j < |list| ==> Apart(list, i, j))
  }

  lemma OnePosition(list: seq<Ptr>, size: nat, i: nat, j: nat)
    requires Distinct(list, size) && i < |list| && j < |list| && list[i] == list[j]
    ensures i == j
  {
    assert i < j ==> Apart(list, i, j);
    assert j < i ==> Apart(list, j, i);
  }

  lemma DistinctFront(list: seq<Ptr>, size: nat, e: Ptr)
    requires Distinct(list, size) && 0 < e < size && e !in list
    ensures Distinct([e] + list, size) && Distinct(list + [e], size)
  {
    forall i, j | 0 <= i < j < |list| + 1
      ensures Apart([e] + list, i, j) && Apart(list + [e], i, j)
    {
      assert i > 0 ==> Apart(list, i - 1, j - 1);
      assert j < |list| ==> Apart(list, i, j);
    }
  }

  lemma DistinctWithout(list: seq<Ptr>, size: nat, k: nat)
    requires Distinct(list, size) && k < |list|
    ensures Distinct(list[..k] + list[k + 1..], size) && list[k] !in list[..k] + list[k + 1..]
    ensures forall x :: x in list[..k] + list[k + 1..] <==> x in list && x != list[k]
  {
    var rest := list[..k] + list[k + 1..];
    forall i, j | 0 <= i < j < |rest|
      ensures Apart(rest, i, j)
    {
      assert Apart(list, if i < k then i else i + 1, if j < k then j else j + 1);
    }
    forall x
      ensures x in rest <==> x in list && x != list[k]
    {
      if x in rest {
        var i :| 0 <= i < |rest| && rest[i] == x;
        if x == list[k] {
          OnePosition(list, size, if i < k then i else i + 1, k);
        }
      }
      if x in list && x != list[k] {
        var i :| 0 <= i < |list| && list[i] == x;
        assert rest[if i < k then i else i - 1] == x;
      }
    }
  }

  // ---- bucket chains ----

  ghost predicate BucketNode<K, V>(pool: seq<Entry<K, V>>, chain: seq<Ptr>, k: nat)
    requires k < |chain| && chain[k] < |pool|
  {
    pool[chain[k]].bucketNext == At(chain, k + 1) && pool[chain[k]].bucketPrevious == At(chain, k - 1)
  }

  ghost predicate BucketChain<K, V>(pool: seq<Entry<K, V>>, first: Ptr, chain: seq<Ptr>) {
    && Distinct(chain, |pool|)
    && first == At(chain, 0)
    && (forall k {:trigger BucketNode(pool, chain, k)} :: 0 <= k < |chain| ==> BucketNode(pool, chain, k))
  }

  /** The entry becomes the first of the chain. */
  function BucketPush<K, V>(pool: seq<Entry<K, V>>, first: Ptr, e: Ptr): (p: seq<Entry<K, V>>)
    requires first < |pool| && e < |pool|
    ensures |p| == |pool|
  {
    var p1 := pool[e := pool[e].(bucketNext := first, bucketPrevious := NULL)];
    if first != NULL then p1[first := p1[first].(bucketPrevious := e)] else p1
  }

  lemma BucketPushed<K, V>(pool: seq<Entry<K, V>>, first: Ptr, chain: seq<Ptr>, e: Ptr)
    requires BucketChain(pool, first, chain) && 0 < e < |pool| && e !in chain
    ensures BucketChain(BucketPush(pool, first, e), e, [e] + chain)
  {
    var pool', chain' := BucketPush(pool, first, e), [e] + chain;
    DistinctFront(chain, |pool|, e);
    forall k | 0 <= k < |chain'|
      ensures BucketNode(pool', chain', k)
    {
      if k > 0 {
        assert BucketNode(pool, chain, k - 1);
        assert k > 1 ==> Apart(chain, 0, k - 1);
      }
    }
  }

  /** The entry's neighbours in the chain are joined. */
  function BucketPop<K, V>(pool: seq<Entry<K, V>>, e: Ptr): (p: seq<Entry<K, V>>)
    requires e < |pool| && pool[e].bucketNext < |pool| && pool[e].bucketPrevious < |pool|
    ensures |p| == |pool|
  {
    var next, previous := pool[e].bucketNext, pool[e].bucketPrevious;
    var p1 := if next != NULL then pool[next := pool[next].(bucketPrevious := previous)] else pool;
    if previous != NULL then p1[previous := p1[previous].(bucketNext := next)] else p1
  }

  lemma BucketPopped<K, V>(pool: seq<Entry<K, V>>, first: Ptr, chain: seq<Ptr>, k: nat)
    requires BucketChain(pool, first, chain) && k < |chain|
    ensures var e := chain[k];
            && pool[e].bucketNext < |pool| && pool[e].bucketPrevious < |pool|
            && BucketChain(BucketPop(pool, e), if pool[e].bucketPrevious == NULL then pool[e].bucketNext else first,
                           chain[..k] + chain[k + 1..])
  {
    var e := chain[k];
    assert BucketNode(pool, chain, k);
    var pool', chain' := BucketPop(pool, e), chain[..k] + chain[k + 1..];
    DistinctWithout(chain, |pool|, k);
    forall i | 0 <= i < |chain'|
      ensures BucketNode(pool', chain', i)
    {
      var o := if i < k then i else i + 1;
      assert BucketNode(pool, chain, o);
      assert k > 0 && o != k - 1 ==> if o < k - 1 then Apart(chain, o, k - 1) else Apart(chain, k - 1, o);
      assert k + 1 < |chain| && o != k + 1 ==> if o < k + 1 then Apart(chain, o, k + 1) else Apart(chain, k + 1, o);
    }
  }

  /** The bucket pointers of these entries are the same. */
  ghost predicate SameBucketLinks<K, V>(pool: seq<Entry<K, V>>, pool': seq<Entry<K, V>>, members: set<Ptr>) {
    && |pool| <= |pool'|
    && forall e {:trigger pool'[e]} :: e in members && 0 <= e < |pool| ==>
         pool'[e].bucketNext == pool[e].bucketNext && pool'[e].bucketPrevious == pool[e].bucketPrevious &&
         pool'[e].key == pool[e].key
  }

  lemma BucketKept<K, V>(pool: seq<Entry<K, V>>, pool': seq<Entry<K, V>>, first: Ptr, chain: seq<Ptr>,
                         members: set<Ptr>)
    requires BucketChain(pool, first, chain) && SameBucketLinks(pool, pool', members)
    requires forall k :: 0 <= k < |chain| ==> chain[k] in members
    ensures BucketChain(pool', first, chain)
  {
    forall i, j | 0 <= i < j < |chain|
      ensures Apart(chain, i, j)
    {
    }
    forall k | 0 <= k < |chain|
      ensures BucketNode(pool', chain, k)
    {
      assert BucketNode(pool, chain, k);
      assert pool'[chain[k]].bucketNext == pool[chain[k]].bucketNext;
    }
  }

  // ---- all buckets ----

  function BucketOf<K>(hash: Hash<K>, key: K, hashKey: nat, n: nat): (b: nat)
    requires n > 0
    ensures b < n
  {
    hash(key, hashKey) % n
  }

  /** What is in a bucket's chain are members that belong there. */
  ghost predicate Homed<K, V>(pool: seq<Entry<K, V>>, chain: seq<Ptr>, b: nat, hash: Hash<K>, hashKey: nat, n: nat,
                              members: set<Ptr>)
    requires n > 0
  {
    forall k :: 0 <= k < |chain| ==>
                  chain[k] in members && chain[k] < |pool| && BucketOf(hash, pool[chain[k]].key, hashKey, n) == b
  }

  /** The buckets hold exactly the members, each in the bucket of its hash. */
  ghost predicate Buckets<K, V>(pool: seq<Entry<K, V>>, buckets: seq<Ptr>, chains: seq<seq<Ptr>>, hash: Hash<K>,
                                hashKey: nat, members: set<Ptr>) {
    && |buckets| == |chains| > 0
    && (forall b {:trigger BucketChain(pool, buckets[b], chains[b])} :: 0 <= b < |buckets| ==>
          BucketChain(pool, buckets[b], chains[b]))
    && (forall b {:trigger Homed(pool, chains[b], b, hash, hashKey, |buckets|, members)} :: 0 <= b < |buckets| ==>
          Homed(pool, chains[b], b, hash, hashKey, |buckets|, members))
    && (forall e {:trigger e in members} :: e in members ==>
          0 < e < |pool| && e in chains[BucketOf(hash, pool[e].key, hashKey, |buckets|)])
  }

  lemma BucketsKept<K, V>(pool: seq<Entry<K, V>>, pool': seq<Entry<K, V>>, buckets: seq<Ptr>, chains: seq<seq<Ptr>>,
                          hash: Hash<K>, hashKey: nat, members: set<Ptr>)
    requires Buckets(pool, buckets, chains, hash, hashKey, members) && SameBucketLinks(pool, pool', members)
    ensures Buckets(pool', buckets, chains, hash, hashKey, members)
  {
    forall b | 0 <= b < |buckets|
      ensures BucketChain(pool', buckets[b], chains[b]) && Homed(pool', chains[b], b, hash, hashKey, |buckets|, members)
    {
      assert BucketChain(pool, buckets[b], chains[b]) && Homed(pool, chains[b], b, hash, hashKey, |buckets|, members);
      BucketKept(pool, pool', buckets[b], chains[b], members);
    }
    forall e | e in members
      ensures 0 < e < |pool'| && e in chains[BucketOf(hash, pool'[e].key, hashKey, |buckets|)]
    {
      assert pool'[e].key == pool[e].key;
    }
  }

  /** An entry pushed on the chain of its bucket. */
  lemma BucketsPushed<K, V>(pool: seq<Entry<K, V>>, buckets: seq<Ptr>, chains: seq<seq<Ptr>>, hash: Hash<K>,
                            hashKey: nat, members: set<Ptr>, e: Ptr)
    requires Buckets(pool, buckets, chains, hash, hashKey, members) && 0 < e < |pool| && e !in members
    ensures var b := BucketOf(hash, pool[e].key, hashKey, |buckets|);
            && buckets[b] < |pool|
            && Buckets(BucketPush(pool, buckets[b], e), buckets[b := e], chains[b := [e] + chains[b]], hash, hashKey,
                       members + {e})
  {
    var n, b := |buckets|, BucketOf(hash, pool[e].key, hashKey, |buckets|);
    assert BucketChain(pool, buckets[b], chains[b]) && Homed(pool, chains[b], b, hash, hashKey, n, members);
    BucketPushed(pool, buckets[b], chains[b], e);
    var pool', buckets', chains' := BucketPush(pool, buckets[b], e), buckets[b := e], chains[b := [e] + chains[b]];
    var members' := members + {e};
    forall c | 0 <= c < n
      ensures BucketChain(pool', buckets'[c], chains'[c]) && Homed(pool', chains'[c], c, hash, hashKey, n, members')
    {
      assert BucketChain(pool, buckets[c], chains[c]) && Homed(pool, chains[c], c, hash, hashKey, n, members);
      if c != b {
        var others := set x | x in chains[c];
        BucketKept(pool, pool', buckets[c], chains[c], others);
      }
    }
    forall x | x in members'
      ensures 0 < x < |pool'| && x in chains'[BucketOf(hash, pool'[x].key, hashKey, n)]
    {
      assert pool'[x].key == pool[x].key;
      if x == e {
        assert chains'[b][0] == e;
      } else {
        assert chains'[b] == [e] + chains[b];
      }
    }
  }

  lemma HomedWithout<K, V>(pool: seq<Entry<K, V>>, pool': seq<Entry<K, V>>, chain: seq<Ptr>, k: nat, b: nat,
                           hash: Hash<K>, hashKey: nat, n: nat, members: set<Ptr>)
    requires n > 0 && k < |chain| && Distinct(chain, |pool|) && Homed(pool, chain, b, hash, hashKey, n, members)
    requires |pool'| == |pool| && forall e {:trigger pool'[e]} :: 0 <= e < |pool| ==> pool'[e].key == pool[e].key
    ensures Homed(pool', chain[..k] + chain[k + 1..], b, hash, hashKey, n, members - {chain[k]})
  {
    var rest := chain[..k] + chain[k + 1..];
    DistinctWithout(chain, |pool|, k);
    forall i | 0 <= i < |rest|
      ensures rest[i] in members - {chain[k]} && rest[i] < |pool'| &&
              BucketOf(hash, pool'[rest[i]].key, hashKey, n) == b
    {
      var o := if i < k then i else i + 1;
      assert rest[i] in rest && rest[i] == chain[o];
      assert o != k && (if o < k then Apart(chain, o, k) else Apart(chain, k, o));
      assert chain[o] in members && BucketOf(hash, pool[chain[o]].key, hashKey, n) == b;
      assert pool'[chain[o]].key == pool[chain[o]].key;
    }
  }

  /** Popping an entry touches its own chain only. */
  lemma PopTouches<K, V>(pool: seq<Entry<K, V>>, first: Ptr, chain: seq<Ptr>, k: nat, others: seq<Ptr>)
    requires BucketChain(pool, first, chain) && k < |chain|
    requires forall i, j :: 0 <= i < |others| && 0 <= j < |chain| ==> others[i] != chain[j]
    ensures pool[chain[k]].bucketNext < |pool| && pool[chain[k]].bucketPrevious < |pool|
    ensures SameBucketLinks(pool, BucketPop(pool, chain[k]), set x | x in others)
  {
    assert BucketNode(pool, chain, k);
  }

  /** Chains of different buckets have nothing in common. */
  lemma ChainsApart<K, V>(pool: seq<Entry<K, V>>, a: seq<Ptr>, b: seq<Ptr>, i: nat, j: nat, hash: Hash<K>,
                          hashKey: nat, n: nat, members: set<Ptr>)
    requires n > 0 && i != j && Homed(pool, a, i, hash, hashKey, n, members) &&
             Homed(pool, b, j, hash, hashKey, n, members)
    ensures forall k, l :: 0 <= k < |a| && 0 <= l < |b| ==> a[k] != b[l]
  {
  }

  /** The bucket table when an entry is taken out. */
  function TablePop<K, V>(pool: seq<Entry<K, V>>, buckets: seq<Ptr>, b: nat, e: Ptr): (t: seq<Ptr>)
    requires b < |buckets| && e < |pool|
    ensures |t| == |buckets|
  {
    if pool[e].bucketPrevious == NULL then buckets[b := pool[e].bucketNext] else buckets
  }

  lemma ChainsPopped<K, V>(pool: seq<Entry<K, V>>, buckets: seq<Ptr>, chains: seq<seq<Ptr>>, hash: Hash<K>,
                           hashKey: nat, members: set<Ptr>, e: Ptr, b: nat, k: nat, c: nat)
    requires Buckets(pool, buckets, chains, hash, hashKey, members) && e < |pool|
    requires b < |buckets| && c < |buckets| && k < |chains[b]| && chains[b][k] == e
    ensures pool[e].bucketNext < |pool| && pool[e].bucketPrevious < |pool|
    ensures var chains' := chains[b := chains[b][..k] + chains[b][k + 1..]];
            && BucketChain(BucketPop(pool, e), TablePop(pool, buckets, b, e)[c], chains'[c])
            && Homed(BucketPop(pool, e), chains'[c], c, hash, hashKey, |buckets|, members - {e})
  {
    var n := |buckets|;
    assert BucketChain(pool, buckets[b], chains[b]) && Homed(pool, chains[b], b, hash, hashKey, n, members);
    assert BucketNode(pool, chains[b], k);
    if c != b {
      assert BucketChain(pool, buckets[c], chains[c]) && Homed(pool, chains[c], c, hash, hashKey, n, members);
      ChainsApart(pool, chains[c], chains[b], c, b, hash, hashKey, n, members);
      PopTouches(pool, buckets[b], chains[b], k, chains[c]);
      BucketKept(pool, BucketPop(pool, e), buckets[c], chains[c], set x | x in chains[c]);
    } else {
      BucketPopped(pool, buckets[b], chains[b], k);
      HomedWithout(pool, BucketPop(pool, e), chains[c], k, c, hash, hashKey, n, members);
    }
  }

  /** An entry taken out of the chain of its bucket. */
  lemma BucketsPopped<K, V>(pool: seq<Entry<K, V>>, buckets: seq<Ptr>, chains: seq<seq<Ptr>>, hash: Hash<K>,
                            hashKey: nat, members: set<Ptr>, e: Ptr) returns (chains': seq<seq<Ptr>>)
    requires Buckets(pool, buckets, chains, hash, hashKey, members) && e in members
    ensures var b := BucketOf(hash, pool[e].key, hashKey, |buckets|);
            && pool[e].bucketNext < |pool| && pool[e].bucketPrevious < |pool|
            && Buckets(BucketPop(pool, e), TablePop(pool, buckets, b, e), chains', hash, hashKey, members - {e})
  {
    var b := BucketOf(hash, pool[e].key, hashKey, |buckets|);
    assert BucketChain(pool, buckets[b], chains[b]);
    var k :| 0 <= k < |chains[b]| && chains[b][k] == e;
    var rest := chains[b][..k] + chains[b][k + 1..];
    chains' := chains[b := rest];
    ChainsPopped(pool, buckets, chains, hash, hashKey, members, e, b, k, b);
    DistinctWithout(chains[b], |pool|, k);
    var pool', buckets' := BucketPop(pool, e), TablePop(pool, buckets, b, e);
    forall c | 0 <= c < |buckets|
      ensures BucketChain(pool', buckets'[c], chains'[c])
      ensures Homed(pool', chains'[c], c, hash, hashKey, |buckets'|, members - {e})
    {
      ChainsPopped(pool, buckets, chains, hash, hashKey, members, e, b, k, c);
    }
    forall x | x in members - {e}
      ensures 0 < x < |pool'| && x in chains'[BucketOf(hash, pool'[x].key, hashKey, |buckets'|)]
    {
      assert x in members;
      assert pool'[x].key == pool[x].key;
    }
  }

  // ---- the list of all entries ----

  ghost predicate IterateNode<K, V>(pool: seq<Entry<K, V>>, list: seq<Ptr>, k: nat)
    requires k < |list| && list[k] < |pool|
  {
    pool[list[k]].iterateNext == At(list, k + 1) && pool[list[k]].iteratePrevious == At(list, k - 1)
  }

  ghost predicate IterateList<K, V>(pool: seq<Entry<K, V>>, head: Ptr, tail: Ptr, list: seq<Ptr>) {
    && Distinct(list, |pool|)
    && head == At(list, 0) && tail == At(list, |list| - 1)
    && (forall k {:trigger IterateNode(pool, list, k)} :: 0 <= k < |list| ==> IterateNode(pool, list, k))
  }

  function IterateAppend<K, V>(pool: seq<Entry<K, V>>, tail: Ptr, e: Ptr): (p: seq<Entry<K, V>>)
    requires tail < |pool| && e < |pool|
    ensures |p| == |pool|
  {
    var p1 := pool[e := pool[e].(iteratePrevious := tail, iterateNext := NULL)];
    if tail != NULL then p1[tail := p1[tail].(iterateNext := e)] else p1
  }

  lemma IterateAppended<K, V>(pool: seq<Entry<K, V>>, head: Ptr, tail: Ptr, list: seq<Ptr>, e: Ptr)
    requires IterateList(pool, head, tail, list) && 0 < e < |pool| && e !in list
    ensures IterateList(IterateAppend(pool, tail, e), if tail == NULL then e else head, e, list + [e])
  {
    var pool', list', n := IterateAppend(pool, tail, e), list + [e], |list|;
    DistinctFront(list, |pool|, e);
    forall k | 0 <= k < |list'|
      ensures IterateNode(pool', list', k)
    {
      if k < n {
        assert IterateNode(pool, list, k);
        assert k < n - 1 ==> Apart(list, k, n - 1);
      }
    }
  }

  function IterateRemove<K, V>(pool: seq<Entry<K, V>>, e: Ptr): (p: seq<Entry<K, V>>)
    requires e < |pool| && pool[e].iterateNext < |pool| && pool[e].iteratePrevious < |pool|
    ensures |p| == |pool|
  {
    var next, previous := pool[e].iterateNext, pool[e].iteratePrevious;
    var p1 := if next != NULL then pool[next := pool[next].(iteratePrevious := previous)] else pool;
    if previous != NULL then p1[previous := p1[previous].(iterateNext := next)] else p1
  }

  lemma IterateRemoved<K, V>(pool: seq<Entry<K, V>>, head: Ptr, tail: Ptr, list: seq<Ptr>, k: nat)
    requires IterateList(pool, head, tail, list) && k < |list|
    ensures var e := list[k];
            && pool[e].iterateNext < |pool| && pool[e].iteratePrevious < |pool|
            && IterateList(IterateRemove(pool, e),
                           if pool[e].iteratePrevious == NULL then pool[e].iterateNext else head,
                           if pool[e].iterateNext == NULL then pool[e].iteratePrevious else tail,
                           list[..k] + list[k + 1..])
  {
    var e := list[k];
    assert IterateNode(pool, list, k);
    var pool', list' := IterateRemove(pool, e), list[..k] + list[k + 1..];
    DistinctWithout(list, |pool|, k);
    forall i | 0 <= i < |list'|
      ensures IterateNode(pool', list', i)
    {
      var o := if i < k then i else i + 1;
      assert IterateNode(pool, list, o);
      assert k > 0 && o != k - 1 ==> if o < k - 1 then Apart(list, o, k - 1) else Apart(list, k - 1, o);
      assert k + 1 < |list| && o != k + 1 ==> if o < k + 1 then Apart(list, o, k + 1) else Apart(list, k + 1, o);
    }
  }

  ghost predicate SameIterateLinks<K, V>(pool: seq<Entry<K, V>>, pool': seq<Entry<K, V>>, members: set<Ptr>) {
    && |pool| <= |pool'|
    && forall e {:trigger pool'[e]} :: e in members && 0 <= e < |pool| ==>
         pool'[e].iterateNext == pool[e].iterateNext && pool'[e].iteratePrevious == pool[e].iteratePrevious
  }

  lemma IterateKept<K, V>(pool: seq<Entry<K, V>>, pool': seq<Entry<K, V>>, head: Ptr, tail: Ptr, list: seq<Ptr>,
                          members: set<Ptr>)
    requires IterateList(pool, head, tail, list) && SameIterateLinks(pool, pool', members)
    requires forall k :: 0 <= k < |list| ==> list[k] in members
    ensures IterateList(pool', head, tail, list)
  {
    forall i, j | 0 <= i < j < |list|
      ensures Apart(list, i, j)
    {
    }
    forall k | 0 <= k < |list|
      ensures IterateNode(pool', list, k)
    {
      assert IterateNode(pool, list, k);
      assert pool'[list[k]].iterateNext == pool[list[k]].iterateNext;
    }
  }
}
