/**
  Child arrays, as both tries of the repository keep them: entries sorted by
  their byte, found again by bisection.  Nodes live in a pool of records and a
  pointer is the index that allocation gave.
  */
module ChildArrays {
  import opened CStrings

  type Ptr = nat

  datatype ChildEntry = ChildEntry(c: Char, child: Ptr)

  function Labels(children: seq<ChildEntry>): (labels: seq<Char>)
    ensures |labels| == |children|
  {
    seq(|children|, i requires 0 <= i < |children| => children[i].c)
  }

  ghost predicate Sorted(labels: seq<Char>) {
    forall i, j :: 0 <= i < j < |labels| ==> labels[i] < labels[j]
  }

  /** A label is a byte and not NUL, so the count of a sorted array never overflows its uint8_t. */
  lemma {:induction false} SortedFitsByte(labels: seq<Char>)
    requires Sorted(labels)
    ensures |labels| <= 255
    ensures labels != [] ==> |labels| <= labels[|labels| - 1]
  {
    if labels != [] {
      var init := labels[..|labels| - 1];
      SortedFitsByte(init);
      assert init != [] ==> init[|init| - 1] < labels[|labels| - 1];
    }
  }

  /** bsearch() over sorted children. */
  method Bsearch(children: seq<ChildEntry>, c: Char) returns (found: bool, child: Ptr)
    requires Sorted(Labels(children))
    ensures found <==> c in Labels(children)
    ensures found ==> ChildEntry(c, child) in children
  {
    ghost var labels := Labels(children);
    var first, last := 0, |children|;
    while first < last
      invariant 0 <= first <= last <= |children|
      invariant forall i :: 0 <= i < first ==> labels[i] < c
      invariant forall i :: last <= i < |children| ==> c < labels[i]
    {
      var middle := (first + last) / 2;
      assert labels[middle] == children[middle].c;
      if c < children[middle].c {
        last := middle;
      } else if children[middle].c < c {
        first := middle + 1;
      } else {
        return true, children[middle].child;
      }
    }
    return false, 0;
  }

  /** Open a gap where the sorted array can take c, and enter the child there. */
  method InsertSorted(children: seq<ChildEntry>, c: Char, child: Ptr) returns (grown: seq<ChildEntry>)
    requires Sorted(Labels(children)) && c !in Labels(children)
    ensures |grown| == |children| + 1
    ensures Sorted(Labels(grown))
    ensures forall d :: d in Labels(grown) <==> d in Labels(children) || d == c
    ensures forall e :: e in grown <==> e in children || e == ChildEntry(c, child)
  {
    ghost var labels := Labels(children);
    var left, right := 0, |children|;
    while right > left
      invariant 0 <= left <= right <= |children|
      invariant forall i :: 0 <= i < left ==> labels[i] < c
      invariant forall i :: right <= i < |children| ==> c < labels[i]
    {
      var middle := (right + left) / 2;
      assert labels[middle] == children[middle].c;
      if children[middle].c <= c {
        left := middle + 1;
      } else {
        right := middle;
      }
    }
    grown := children[..left] + [ChildEntry(c, child)] + children[left..];
    assert Labels(grown) == labels[..left] + [c] + labels[left..];
  }
}
