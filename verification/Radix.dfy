/**
  The match trie of src/udevadm/udevadm-hwdb.c without its memory layout.  A node
  is identified by its path, the characters consumed to enter it; its full string
  is the path and then its own prefix.
  */
module Radix {
  import opened CStrings
  import opened ChildArrays

  /** The content of a node: its prefix, the labels of its children, its sorted key/value pairs. */
  datatype Image = Image(prefix: CStr, labels: seq<Char>, pairs: seq<(CStr, CStr)>)
  type Shape = map<CStr, Image>

  function Full(a: CStr, shape: Shape): CStr
    requires a in shape
  {
    a + shape[a].prefix
  }

  ghost predicate KeysSorted(pairs: seq<(CStr, CStr)>) {
    forall i, j :: 0 <= i < j < |pairs| ==> Less(pairs[i].0, pairs[j].0)
  }

  /** A node entered beyond a's path lies below a: past all of a's prefix, through a child of a. */
  ghost predicate Apart(a: CStr, b: CStr, shape: Shape)
    requires a in shape
  {
    IsPrefix(a, b) && a != b ==>
      |Full(a, shape)| < |b| && IsPrefix(Full(a, shape), b) && Head(b, |Full(a, shape)| + 1) in shape
  }

  ghost predicate NodeOk(a: CStr, shape: Shape)
    requires a in shape
  {
    && Sorted(shape[a].labels)
    && (forall c: Char :: c in shape[a].labels <==> Snoc(Full(a, shape), c) in shape)
    && KeysSorted(shape[a].pairs)
  }

  ghost predicate Valid(shape: Shape) {
    && [] in shape
    && shape[[]].prefix == []
    && (forall a, b {:trigger Apart(a, b, shape)} :: a in shape && b in shape ==> Apart(a, b, shape))
    && (forall a {:trigger NodeOk(a, shape)} :: a in shape ==> NodeOk(a, shape))
  }

  /** The node holds values or branches; one that is excepted at least leads on. */
  ghost predicate Useful(a: CStr, shape: Shape, except: set<CStr>)
    requires a in shape
  {
    && (shape[a].pairs != [] || shape[a].labels != [])
    && (a !in except ==> shape[a].pairs != [] || |shape[a].labels| >= 2)
  }

  /** Every node but the root. */
  ghost predicate Compact(shape: Shape, except: set<CStr>) {
    forall a {:trigger Useful(a, shape, except)} :: a in shape && a != [] ==> Useful(a, shape, except)
  }

  lemma CompactExcept(shape: Shape, except: set<CStr>, except': set<CStr>)
    requires Compact(shape, except) && except <= except'
    ensures Compact(shape, except')
  {
    forall x | x in shape && x != []
      ensures Useful(x, shape, except')
    {
      assert Useful(x, shape, except);
    }
  }

  /** The trie maps key to value under the pattern. */
  ghost predicate Maps(shape: Shape, pattern: CStr, key: CStr, value: CStr) {
    exists a :: a in shape && Full(a, shape) == pattern && (key, value) in shape[a].pairs
  }

  ghost function Patterns(shape: Shape): set<CStr> {
    set a | a in shape && shape[a].pairs != [] :: Full(a, shape)
  }

  /** Only (pattern, key) is changed, and is mapped to value. */
  ghost predicate Updated(shape: Shape, shape': Shape, pattern: CStr, key: CStr, value: CStr) {
    forall p, k, v :: Maps(shape', p, k, v) <==> if p == pattern && k == key then v == value else Maps(shape, p, k, v)
  }

  ghost predicate SameMaps(shape: Shape, shape': Shape) {
    forall p, k, v :: Maps(shape', p, k, v) <==> Maps(shape, p, k, v)
  }

  /** A node entered on the way to b's full string is b, or b lies below it. */
  lemma Inside(a: CStr, b: CStr, shape: Shape)
    requires Valid(shape) && a in shape && b in shape
    requires IsPrefix(a, Full(b, shape))
    ensures a == b ||
            (|Full(a, shape)| < |b| && IsPrefix(Full(a, shape), b) && Head(b, |Full(a, shape)| + 1) in shape)
  {
    PrefixOfSum(b, shape[b].prefix);
    assert Apart(a, b, shape);
    assert Apart(b, a, shape);
    if |a| <= |b| {
      PrefixesNest(a, b, Full(b, shape));
    } else {
      PrefixesNest(b, a, Full(b, shape));
    }
  }

  lemma FullDistinct(a: CStr, b: CStr, shape: Shape)
    requires Valid(shape) && a in shape && b in shape
    requires Full(a, shape) == Full(b, shape)
    ensures a == b
  {
    PrefixOfSum(a, shape[a].prefix);
    Inside(a, b, shape);
  }

  /**
    Where the walk for a pattern leaves the trie, inside a prefix or for want of a
    child, the pattern has no node.
    */
  lemma LeavesTrie(a: CStr, pattern: CStr, b: CStr, shape: Shape)
    requires Valid(shape) && a in shape && b in shape
    requires IsPrefix(a, pattern) && Full(a, shape) != pattern
    requires IsPrefix(Full(a, shape), pattern) ==> pattern[|Full(a, shape)|] !in shape[a].labels
    ensures Full(b, shape) != pattern
  {
    assert NodeOk(a, shape);
    if Full(b, shape) == pattern {
      var f := Full(a, shape);
      Inside(a, b, shape);
      PrefixOfSum(b, shape[b].prefix);
      PrefixTransitive(f, b, pattern);
      HeadHead(pattern, |b|, |f| + 1);
      HeadStep(pattern, |f|);
    }
  }

  /** The pattern has no node yet. */
  ghost predicate NoNode(pattern: CStr, shape: Shape) {
    forall b :: b in shape ==> Full(b, shape) != pattern
  }

  lemma NoNodeLeft(a: CStr, pattern: CStr, shape: Shape)
    requires Valid(shape) && a in shape
    requires IsPrefix(a, pattern) && Full(a, shape) != pattern
    requires IsPrefix(Full(a, shape), pattern) ==> pattern[|Full(a, shape)|] !in shape[a].labels
    ensures NoNode(pattern, shape) && pattern !in Patterns(shape)
  {
    forall b | b in shape
      ensures Full(b, shape) != pattern
    {
      LeavesTrie(a, pattern, b, shape);
    }
  }

  /** The pattern differs from the node's prefix, or ends in it. */
  lemma NoNodeInside(a: CStr, pattern: CStr, p: nat, shape: Shape)
    requires Valid(shape) && a in shape && p < |shape[a].prefix|
    requires IsPrefix(a, pattern) && |a| + p <= |pattern|
    requires shape[a].prefix[p] != At(pattern, |a| + p)
    ensures NoNode(pattern, shape) && pattern !in Patterns(shape)
  {
    var f := Full(a, shape);
    assert f[|a| + p] == shape[a].prefix[p];
    if |f| <= |pattern| {
      HeadIndex(pattern, |f|, |a| + p);
    }
    NoNodeLeft(a, pattern, shape);
  }

  // ---- splitting a node inside its prefix ----

  function SplitPath(a: CStr, shape: Shape, p: nat): CStr
    requires a in shape && p < |shape[a].prefix|
  {
    a + shape[a].prefix[..p + 1]
  }

  /** The node keeps p characters of its prefix; a child takes over the rest and all it held. */
  function Split(a: CStr, shape: Shape, p: nat): Shape
    requires a in shape && p < |shape[a].prefix|
  {
    var n := shape[a];
    shape[a := Image(n.prefix[..p], [n.prefix[p]], [])]
         [SplitPath(a, shape, p) := Image(n.prefix[p + 1..], n.labels, n.pairs)]
  }

  lemma SplitFacts(a: CStr, shape: Shape, p: nat)
    requires Valid(shape) && a in shape && p < |shape[a].prefix|
    ensures var m := SplitPath(a, shape, p);
            var shape' := Split(a, shape, p);
            && m !in shape && m != a && a != []
            && IsPrefix(a, m) && IsPrefix(m, Full(a, shape))
            && Full(m, shape') == Full(a, shape)
            && Full(a, shape') == Head(Full(a, shape), |a| + p)
            && m == Head(Full(a, shape), |a| + p + 1)
            && m == Snoc(Full(a, shape'), shape[a].prefix[p])
  {
    var m := SplitPath(a, shape, p);
    assert IsPrefix(a, m) && IsPrefix(m, Full(a, shape));
    assert m in shape ==> Apart(a, m, shape);
  }

  lemma SplitApart(a: CStr, shape: Shape, p: nat, x: CStr, y: CStr)
    requires Valid(shape) && a in shape && p < |shape[a].prefix|
    requires x in Split(a, shape, p) && y in Split(a, shape, p)
    ensures Apart(x, y, Split(a, shape, p))
  {
    var m, shape', f := SplitPath(a, shape, p), Split(a, shape, p), Full(a, shape);
    SplitFacts(a, shape, p);
    if x == y || !IsPrefix(x, y) {
    } else if x == a {
      if y != m {
        assert Apart(a, y, shape);
        HeadHead(y, |f|, |a| + p);
        HeadHead(y, |f|, |a| + p + 1);
      } else {
        HeadHead(f, |m|, |a| + p);
        assert Head(m, |m|) == m;
      }
    } else if x == m {
      PrefixTransitive(a, m, y);
      assert Apart(a, y, shape);
    } else if y == m {
      PrefixTransitive(x, m, f);
      Inside(x, a, shape);
      PrefixTransitive(Full(x, shape), a, m);
      HeadHead(m, |a|, |Full(x, shape)| + 1);
    } else {
      assert Apart(x, y, shape);
    }
  }

  lemma SplitNodeOk(a: CStr, shape: Shape, p: nat, x: CStr)
    requires Valid(shape) && a in shape && p < |shape[a].prefix|
    requires x in Split(a, shape, p)
    ensures NodeOk(x, Split(a, shape, p))
  {
    var m, shape', f := SplitPath(a, shape, p), Split(a, shape, p), Full(a, shape);
    SplitFacts(a, shape, p);
    assert NodeOk(a, shape);
    forall c: Char
      ensures c in shape'[x].labels <==> Snoc(Full(x, shape'), c) in shape'
    {
      var s := Snoc(Full(x, shape'), c);
      assert s in shape ==> Apart(a, s, shape);
      if x == a {
        assert IsPrefix(a, s);
      } else if x != m {
        assert NodeOk(x, shape);
        if s == m {
          assert IsPrefix(x, m);
          SplitApart(a, shape, p, x, m);
          PrefixTransitive(x, m, f);
          Inside(x, a, shape);
          assert false;
        }
      }
    }
    if x != a && x != m {
      assert NodeOk(x, shape);
    }
  }

  /** Splitting a node keeps the trie valid and what it maps. */
  lemma SplitValid(a: CStr, shape: Shape, p: nat)
    requires Valid(shape) && a in shape && p < |shape[a].prefix|
    ensures Valid(Split(a, shape, p))
  {
    SplitFacts(a, shape, p);
    forall x, y | x in Split(a, shape, p) && y in Split(a, shape, p)
      ensures Apart(x, y, Split(a, shape, p))
    {
      SplitApart(a, shape, p, x, y);
    }
    forall x | x in Split(a, shape, p)
      ensures NodeOk(x, Split(a, shape, p))
    {
      SplitNodeOk(a, shape, p, x);
    }
  }

  /** Where a node's values are after the split, and where those of a node come from. */
  lemma SplitMoves(a: CStr, shape: Shape, p: nat, b: CStr)
    requires Valid(shape) && a in shape && p < |shape[a].prefix|
    ensures var m, shape' := SplitPath(a, shape, p), Split(a, shape, p);
            && (b in shape ==>
                  var b' := if b == a then m else b;
                  b' in shape' && Full(b', shape') == Full(b, shape) && shape'[b'].pairs == shape[b].pairs)
            && (b in shape' && b != a ==>
                  var b' := if b == m then a else b;
                  b' in shape && Full(b, shape') == Full(b', shape) && shape'[b].pairs == shape[b'].pairs)
            && a in shape' && shape'[a].pairs == []
  {
    SplitFacts(a, shape, p);
  }

  /** Splitting a node changes no mapping. */
  lemma SplitMaps(a: CStr, shape: Shape, p: nat)
    requires Valid(shape) && a in shape && p < |shape[a].prefix|
    ensures SameMaps(shape, Split(a, shape, p))
    ensures Patterns(Split(a, shape, p)) == Patterns(shape)
  {
    forall pattern, k, v
      ensures Maps(Split(a, shape, p), pattern, k, v) <==> Maps(shape, pattern, k, v)
    {
      SplitMapsOne(a, shape, p, pattern, k, v);
    }
    SplitPatterns(a, shape, p);
  }

  lemma SplitMapsOne(a: CStr, shape: Shape, p: nat, pattern: CStr, k: CStr, v: CStr)
    requires Valid(shape) && a in shape && p < |shape[a].prefix|
    ensures Maps(Split(a, shape, p), pattern, k, v) <==> Maps(shape, pattern, k, v)
  {
    var shape' := Split(a, shape, p);
    if Maps(shape, pattern, k, v) {
      var b :| b in shape && Full(b, shape) == pattern && (k, v) in shape[b].pairs;
      SplitMoves(a, shape, p, b);
    }
    if Maps(shape', pattern, k, v) {
      var b :| b in shape' && Full(b, shape') == pattern && (k, v) in shape'[b].pairs;
      SplitMoves(a, shape, p, b);
    }
  }

  lemma SplitPatterns(a: CStr, shape: Shape, p: nat)
    requires Valid(shape) && a in shape && p < |shape[a].prefix|
    ensures Patterns(Split(a, shape, p)) == Patterns(shape)
  {
    var shape' := Split(a, shape, p);
    forall pattern
      ensures pattern in Patterns(shape') <==> pattern in Patterns(shape)
    {
      if pattern in Patterns(shape) {
        var b :| b in shape && shape[b].pairs != [] && Full(b, shape) == pattern;
        SplitMoves(a, shape, p, b);
      }
      if pattern in Patterns(shape') {
        var b :| b in shape' && shape'[b].pairs != [] && Full(b, shape') == pattern;
        SplitMoves(a, shape, p, b);
      }
    }
  }

  // ---- adding a child ----

  /** Below a, a new child entered by c, with the rest of the pattern as its prefix. */
  function AddChild(a: CStr, shape: Shape, c: Char, labels: seq<Char>, rest: CStr): Shape
    requires a in shape
  {
    shape[a := shape[a].(labels := labels)][Snoc(Full(a, shape), c) := Image(rest, [], [])]
  }

  ghost predicate ChildFits(a: CStr, shape: Shape, c: Char, labels: seq<Char>) {
    && Valid(shape) && a in shape
    && c !in shape[a].labels
    && Sorted(labels)
    && (forall d :: d in labels <==> d in shape[a].labels || d == c)
  }

  lemma ChildFacts(a: CStr, shape: Shape, c: Char, labels: seq<Char>, rest: CStr)
    requires ChildFits(a, shape, c, labels)
    ensures var m := Snoc(Full(a, shape), c);
            && m !in shape && m != a && m != []
            && IsPrefix(a, m) && IsPrefix(Full(a, shape), m)
  {
    assert NodeOk(a, shape);
  }

  lemma ChildApart(a: CStr, shape: Shape, c: Char, labels: seq<Char>, rest: CStr, x: CStr, y: CStr)
    requires ChildFits(a, shape, c, labels)
    requires x in AddChild(a, shape, c, labels, rest) && y in AddChild(a, shape, c, labels, rest)
    ensures Apart(x, y, AddChild(a, shape, c, labels, rest))
  {
    var m, f := Snoc(Full(a, shape), c), Full(a, shape);
    ChildFacts(a, shape, c, labels, rest);
    assert y in shape ==> Apart(a, y, shape);
    if x == y || !IsPrefix(x, y) {
    } else if x == m {
      PrefixTransitive(a, m, y);
      assert false;
    } else if y == m {
      if x == a {
        assert Head(m, |m|) == m;
      } else {
        PrefixesNest(x, f, m);
        Inside(x, a, shape);
        PrefixTransitive(Full(x, shape), a, m);
        HeadHead(m, |a|, |Full(x, shape)| + 1);
      }
    } else {
      assert Apart(x, y, shape);
    }
  }

  lemma ChildNodeOk(a: CStr, shape: Shape, c: Char, labels: seq<Char>, rest: CStr, x: CStr)
    requires ChildFits(a, shape, c, labels)
    requires x in AddChild(a, shape, c, labels, rest)
    ensures NodeOk(x, AddChild(a, shape, c, labels, rest))
  {
    var m, f, shape' := Snoc(Full(a, shape), c), Full(a, shape), AddChild(a, shape, c, labels, rest);
    ChildFacts(a, shape, c, labels, rest);
    assert NodeOk(a, shape);
    forall d: Char
      ensures d in shape'[x].labels <==> Snoc(Full(x, shape'), d) in shape'
    {
      var s := Snoc(Full(x, shape'), d);
      assert s in shape ==> Apart(a, s, shape);
      if x == m {
        assert IsPrefix(a, s);
        assert Head(s, |f| + 1) == m;
      } else {
        assert NodeOk(x, shape);
        if s == m {
          assert Head(s, |f|) == Head(m, |f|);
          assert Full(x, shape) == Full(a, shape) && d == s[|f|];
          FullDistinct(x, a, shape);
        }
      }
    }
    if x != m {
      assert NodeOk(x, shape);
    }
  }

  lemma ChildValid(a: CStr, shape: Shape, c: Char, labels: seq<Char>, rest: CStr)
    requires ChildFits(a, shape, c, labels)
    ensures Valid(AddChild(a, shape, c, labels, rest))
  {
    ChildFacts(a, shape, c, labels, rest);
    forall x, y | x in AddChild(a, shape, c, labels, rest) && y in AddChild(a, shape, c, labels, rest)
      ensures Apart(x, y, AddChild(a, shape, c, labels, rest))
    {
      ChildApart(a, shape, c, labels, rest, x, y);
    }
    forall x | x in AddChild(a, shape, c, labels, rest)
      ensures NodeOk(x, AddChild(a, shape, c, labels, rest))
    {
      ChildNodeOk(a, shape, c, labels, rest, x);
    }
  }

  lemma ChildMaps(a: CStr, shape: Shape, c: Char, labels: seq<Char>, rest: CStr)
    requires ChildFits(a, shape, c, labels)
    ensures SameMaps(shape, AddChild(a, shape, c, labels, rest))
    ensures Patterns(AddChild(a, shape, c, labels, rest)) == Patterns(shape)
  {
    var m, shape' := Snoc(Full(a, shape), c), AddChild(a, shape, c, labels, rest);
    ChildFacts(a, shape, c, labels, rest);
    forall b | b in shape
      ensures b in shape' && Full(b, shape') == Full(b, shape) && shape'[b].pairs == shape[b].pairs
    {
    }
  }

  // ---- setting a value ----

  /** The pair takes the place of the one with its key, or its place in the order. */
  function Upsert(pairs: seq<(CStr, CStr)>, key: CStr, value: CStr): seq<(CStr, CStr)> {
    if pairs == [] then [(key, value)]
    else if pairs[0].0 == key then [(key, value)] + pairs[1..]
    else if Less(key, pairs[0].0) then [(key, value)] + pairs
    else [pairs[0]] + Upsert(pairs[1..], key, value)
  }

  lemma {:induction false} UpsertSorted(pairs: seq<(CStr, CStr)>, key: CStr, value: CStr)
    requires KeysSorted(pairs)
    ensures KeysSorted(Upsert(pairs, key, value))
    ensures forall k, v :: (k, v) in Upsert(pairs, key, value) <==> if k == key then v == value else (k, v) in pairs
    decreases |pairs|
  {
    var result := Upsert(pairs, key, value);
    if pairs != [] {
      var rest := pairs[1..];
      assert pairs == [pairs[0]] + rest;
      LessIrreflexive(key);
      forall k, v | (k, v) in rest
        ensures Less(pairs[0].0, k)
      {
      }
      if pairs[0].0 == key {
        LessIrreflexive(pairs[0].0);
      } else if Less(key, pairs[0].0) {
        forall k, v | (k, v) in rest
          ensures Less(key, k)
        {
          LessTransitive(key, pairs[0].0, k);
        }
        forall k, v | (k, v) in pairs
          ensures k != key
        {
        }
      } else {
        LessTotal(key, pairs[0].0);
        UpsertSorted(rest, key, value);
        var tail := Upsert(rest, key, value);
        forall j | 0 <= j < |tail|
          ensures Less(pairs[0].0, tail[j].0)
        {
          assert (tail[j].0, tail[j].1) in tail;
        }
      }
    }
  }

  lemma SetPairsValid(a: CStr, shape: Shape, key: CStr, value: CStr)
    requires Valid(shape) && a in shape
    ensures var shape' := shape[a := shape[a].(pairs := Upsert(shape[a].pairs, key, value))];
            Valid(shape')
  {
    var shape' := shape[a := shape[a].(pairs := Upsert(shape[a].pairs, key, value))];
    assert NodeOk(a, shape);
    UpsertSorted(shape[a].pairs, key, value);
    forall x | x in shape
      ensures Full(x, shape') == Full(x, shape)
    {
    }
    forall x, y | x in shape' && y in shape'
      ensures Apart(x, y, shape')
    {
      assert Apart(x, y, shape);
    }
    forall x | x in shape'
      ensures NodeOk(x, shape')
    {
      assert NodeOk(x, shape);
    }
  }

  lemma SetPairsMaps(a: CStr, shape: Shape, key: CStr, value: CStr)
    requires Valid(shape) && a in shape
    ensures var shape' := shape[a := shape[a].(pairs := Upsert(shape[a].pairs, key, value))];
            Updated(shape, shape', Full(a, shape), key, value) &&
            Patterns(shape') == Patterns(shape) + {Full(a, shape)}
  {
    var shape' := shape[a := shape[a].(pairs := Upsert(shape[a].pairs, key, value))];
    var pattern := Full(a, shape);
    assert NodeOk(a, shape);
    UpsertSorted(shape[a].pairs, key, value);
    assert (key, value) in shape'[a].pairs;
    forall x | x in shape
      ensures Full(x, shape') == Full(x, shape)
      ensures x != a ==> Full(x, shape) != pattern
    {
      if Full(x, shape) == pattern {
        FullDistinct(x, a, shape);
      }
    }
    forall p, k, v
      ensures Maps(shape', p, k, v) <==> if p == pattern && k == key then v == value else Maps(shape, p, k, v)
    {
      if p == pattern {
        assert Maps(shape', p, k, v) <==> (k, v) in shape'[a].pairs;
        assert Maps(shape, p, k, v) <==> (k, v) in shape[a].pairs;
      }
    }
  }

  // ---- what an insertion amounts to ----

  lemma UpdatedTrans(shape: Shape, shape1: Shape, shape2: Shape, pattern: CStr, key: CStr, value: CStr)
    requires SameMaps(shape, shape1) && Updated(shape1, shape2, pattern, key, value)
    ensures Updated(shape, shape2, pattern, key, value)
  {
    forall p, k, v
      ensures Maps(shape2, p, k, v) <==> if p == pattern && k == key then v == value else Maps(shape, p, k, v)
    {
      assert Maps(shape1, p, k, v) <==> Maps(shape, p, k, v);
    }
  }

  /**
    Every node but the root and the spare ones holds values or branches, and besides the
    spare ones there are at most two for each pattern.
    */
  ghost predicate Small(shape: Shape, nodes: nat, spare: set<CStr>) {
    && Compact(shape, spare) && spare <= shape.Keys
    && nodes <= if Patterns(shape) == {} then 1 else 2 * |Patterns(shape)| + |spare|
  }

  /** Room for the pattern of a new child of a, which may have just been split. */
  ghost predicate RoomBelow(a: CStr, shape: Shape, pattern: CStr, nodes: nat, spare: set<CStr>)
    requires a in shape
  {
    && Compact(shape, spare + {a}) && spare <= shape.Keys
    && pattern !in Patterns(shape)
    && nodes <= 2 * |Patterns(shape)| + 1 + |spare|
  }

  /** Room for values at a, which may have just been split. */
  ghost predicate RoomAt(a: CStr, shape: Shape, nodes: nat, spare: set<CStr>)
    requires a in shape
  {
    && Compact(shape, spare + {a}) && spare <= shape.Keys
    && nodes <= 2 * |Patterns(shape)| + |spare| + if Full(a, shape) in Patterns(shape) then 0 else 2
  }

  lemma SmallHasRoom(a: CStr, shape: Shape, pattern: CStr, nodes: nat, spare: set<CStr>)
    requires a in shape && Small(shape, nodes, spare)
    ensures RoomAt(a, shape, nodes, spare)
    ensures pattern !in Patterns(shape) ==> RoomBelow(a, shape, pattern, nodes, spare)
  {
    CompactExcept(shape, spare, spare + {a});
  }

  /** The child of a split node is spare if the node was. */
  function SpareAfter(spare: set<CStr>, a: CStr, m: CStr): set<CStr> {
    if a in spare then spare + {m} else spare
  }

  /** A split adds a node, for a pattern that is still to come. */
  lemma SplitHasRoom(a: CStr, shape: Shape, p: nat, pattern: CStr, nodes: nat, spare: set<CStr>)
    requires Valid(shape) && a in shape && p < |shape[a].prefix|
    requires Small(shape, nodes, spare) && nodes > 1 && pattern !in Patterns(shape)
    ensures var shape', spare' := Split(a, shape, p), SpareAfter(spare, a, SplitPath(a, shape, p));
            && RoomBelow(a, shape', pattern, nodes + 1, spare')
            && (Full(a, shape') == pattern ==> RoomAt(a, shape', nodes + 1, spare'))
  {
    var m := SplitPath(a, shape, p);
    SplitFacts(a, shape, p);
    SplitMaps(a, shape, p);
    SplitCompact(a, shape, p, spare, SpareAfter(spare, a, m));
    CardPlusOne(spare, m);
  }

  lemma SplitCompact(a: CStr, shape: Shape, p: nat, spare: set<CStr>, spare': set<CStr>)
    requires Valid(shape) && a in shape && p < |shape[a].prefix| && Compact(shape, spare)
    requires spare <= spare' && (a in spare ==> SplitPath(a, shape, p) in spare')
    ensures Compact(Split(a, shape, p), spare' + {a})
  {
    SplitFacts(a, shape, p);
    forall x | x in Split(a, shape, p) && x != []
      ensures Useful(x, Split(a, shape, p), spare' + {a})
    {
      if x == SplitPath(a, shape, p) {
        assert Useful(a, shape, spare);
      } else if x != a {
        assert Useful(x, shape, spare);
      }
    }
  }

  /** A split without a pattern to come leaves one spare node more. */
  lemma SplitSpares(a: CStr, shape: Shape, p: nat, nodes: nat, spare: set<CStr>, spare': set<CStr>)
    requires Valid(shape) && a in shape && p < |shape[a].prefix| && Small(shape, nodes, spare) && nodes > 1
    requires spare' == SpareAfter(spare, a, SplitPath(a, shape, p)) + {a}
    ensures SameMaps(shape, Split(a, shape, p)) && Small(Split(a, shape, p), nodes + 1, spare')
    ensures |spare'| == |spare| + 1
  {
    var m := SplitPath(a, shape, p);
    SplitFacts(a, shape, p);
    SplitMaps(a, shape, p);
    SplitCompact(a, shape, p, spare, spare');
    assert spare' + {a} == spare';
    CardPlusOne(spare, m);
    CardPlusOne(SpareAfter(spare, a, m), a);
  }

  lemma CardPlusOne(s: set<CStr>, x: CStr)
    ensures |s + {x}| == if x in s then |s| else |s| + 1
  {
    if x in s {
      assert s + {x} == s;
    }
  }

  /** A new child with its value: the trie gains exactly this one mapping. */
  lemma ChildUpdated(a: CStr, shape: Shape, c: Char, labels: seq<Char>, rest: CStr, key: CStr, value: CStr,
                     nodes: nat, spare: set<CStr>)
    requires ChildFits(a, shape, c, labels)
    requires RoomBelow(a, shape, Snoc(Full(a, shape), c) + rest, nodes, spare)
    ensures var m := Snoc(Full(a, shape), c);
            var shape1 := AddChild(a, shape, c, labels, rest);
            var shape2 := shape1[m := shape1[m].(pairs := Upsert(shape1[m].pairs, key, value))];
            Updated(shape, shape2, m + rest, key, value) && Small(shape2, nodes + 1, spare)
  {
    var m := Snoc(Full(a, shape), c);
    var shape1 := AddChild(a, shape, c, labels, rest);
    var shape2 := shape1[m := shape1[m].(pairs := Upsert(shape1[m].pairs, key, value))];
    ChildValid(a, shape, c, labels, rest);
    ChildMaps(a, shape, c, labels, rest);
    SetPairsMaps(m, shape1, key, value);
    UpdatedTrans(shape, shape1, shape2, m + rest, key, value);
    ChildFacts(a, shape, c, labels, rest);
    forall x | x in shape2 && x != []
      ensures Useful(x, shape2, spare)
    {
      if x == a {
        assert Useful(a, shape, spare + {a});
        TwoLabels(shape[a].labels, labels, c);
      } else if x != m {
        assert Useful(x, shape, spare + {a});
      }
    }
    CardPlusOne(Patterns(shape), m + rest);
    assert m + rest in Patterns(shape2);
  }

  /** A value set at the pattern's node: the trie changes in exactly this one mapping. */
  lemma PairsUpdated(a: CStr, shape: Shape, key: CStr, value: CStr, nodes: nat, spare: set<CStr>)
    requires Valid(shape) && a in shape && RoomAt(a, shape, nodes, spare)
    ensures var shape' := shape[a := shape[a].(pairs := Upsert(shape[a].pairs, key, value))];
            Updated(shape, shape', Full(a, shape), key, value) && Small(shape', nodes, spare)
  {
    SetPairsMaps(a, shape, key, value);
    var shape' := shape[a := shape[a].(pairs := Upsert(shape[a].pairs, key, value))];
    forall x | x in shape' && x != []
      ensures Useful(x, shape', spare)
    {
      assert Useful(x, shape, spare + {a});
    }
    CardPlusOne(Patterns(shape), Full(a, shape));
    assert Full(a, shape) in Patterns(shape');
  }

  lemma TwoLabels(labels: seq<Char>, labels': seq<Char>, c: Char)
    requires c !in labels && c in labels' && forall d :: d in labels ==> d in labels'
    ensures labels != [] ==> |labels'| >= 2
  {
    if labels != [] {
      assert labels[0] in labels';
    }
  }
}
