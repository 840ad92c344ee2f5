/** A binary min-heap of LFU records kept in a list, as the `heapq` functions
    keep it. Only the order property and the contents are observable. */
module RecordHeap {
  import opened KeySeq
  import opened EvictionModel

  datatype Record = Record(use: Use, key: Key)

  predicate Less(a: Record, b: Record) {
    Sooner(a.use, b.use)
  }

  function Parent(i: nat): nat {
    if i == 0 then 0 else (i - 1) / 2
  }

  predicate AboveParent(h: seq<Record>, i: nat)
    requires i < |h|
  {
    !Less(h[i], h[Parent(i)])
  }

  ghost predicate IsHeap(h: seq<Record>) {
    forall i: nat | i < |h| :: AboveParent(h, i)
  }

  /** The order property may fail only between `i` and its parent; the children
      of `i` are in order with that parent. */
  ghost predicate HeapButForParentOf(h: seq<Record>, i: nat) {
    && i < |h|
    && (forall j: nat | j < |h| && j != i :: AboveParent(h, j))
    && (2 * i + 1 < |h| ==> !Less(h[2 * i + 1], h[Parent(i)]))
    && (2 * i + 2 < |h| ==> !Less(h[2 * i + 2], h[Parent(i)]))
  }

  /** The order property may fail only between `i` and its children; they are
      in order with the parent of `i`. */
  ghost predicate HeapButForChildrenOf(h: seq<Record>, i: nat) {
    && i < |h|
    && (forall j: nat | j < |h| && j != 2 * i + 1 && j != 2 * i + 2 :: AboveParent(h, j))
    && (i > 0 && 2 * i + 1 < |h| ==> !Less(h[2 * i + 1], h[Parent(i)]))
    && (i > 0 && 2 * i + 2 < |h| ==> !Less(h[2 * i + 2], h[Parent(i)]))
  }

  lemma {:induction false} RootIsLeast(h: seq<Record>, i: nat)
    requires IsHeap(h) && i < |h|
    ensures !Less(h[i], h[0])
    decreases i
  {
    if i > 0 {
      RootIsLeast(h, Parent(i));
      assert AboveParent(h, i);
    }
  }

  function Swap(h: seq<Record>, i: nat, j: nat): (r: seq<Record>)
    requires i < |h| && j < |h|
    ensures multiset(r) == multiset(h)
    ensures |r| == |h|
  {
    h[i := h[j]][j := h[i]]
  }

  lemma SwapUp(h: seq<Record>, i: nat)
    requires HeapButForParentOf(h, i) && i > 0 && Less(h[i], h[Parent(i)])
    ensures HeapButForParentOf(Swap(h, i, Parent(i)), Parent(i))
  {
    var p := Parent(i);
    var r := Swap(h, i, p);
    assert AboveParent(h, p);
    forall j: nat | j < |r| && j != p ensures AboveParent(r, j) {
      assert j != i ==> AboveParent(h, j);
    }
    assert 2 * p + 1 < |h| && 2 * p + 1 != i ==> AboveParent(h, 2 * p + 1);
    assert 2 * p + 2 < |h| && 2 * p + 2 != i ==> AboveParent(h, 2 * p + 2);
  }

  lemma SwapDown(h: seq<Record>, i: nat, child: nat)
    requires HeapButForChildrenOf(h, i) && child < |h|
    requires child == 2 * i + 1 || child == 2 * i + 2
    requires 2 * i + 1 < |h| ==> !Less(h[2 * i + 1], h[child])
    requires 2 * i + 2 < |h| ==> !Less(h[2 * i + 2], h[child])
    requires Less(h[child], h[i])
    ensures HeapButForChildrenOf(Swap(h, i, child), child)
  {
    var r := Swap(h, i, child);
    forall j: nat | j < |r| && j != 2 * child + 1 && j != 2 * child + 2 ensures AboveParent(r, j) {
      assert j != 2 * i + 1 && j != 2 * i + 2 ==> AboveParent(h, j);
    }
    assert 2 * child + 1 < |h| ==> AboveParent(h, 2 * child + 1);
    assert 2 * child + 2 < |h| ==> AboveParent(h, 2 * child + 2);
  }

  method Push(h: seq<Record>, x: Record) returns (r: seq<Record>)
    requires IsHeap(h)
    ensures IsHeap(r) && multiset(r) == multiset(h) + multiset{x}
  {
    r := h + [x];
    var i := |h|;
    assert forall j: nat | j < |h| :: AboveParent(h, j) ==> AboveParent(r, j);
    while i > 0 && Less(r[i], r[Parent(i)])
      invariant 0 <= i < |r| && multiset(r) == multiset(h) + multiset{x}
      invariant HeapButForParentOf(r, i)
    {
      SwapUp(r, i);
      r, i := Swap(r, i, Parent(i)), Parent(i);
    }
  }

  lemma LastReplacesRoot(h: seq<Record>)
    requires IsHeap(h) && |h| > 1
    ensures HeapButForChildrenOf(h[..|h| - 1][0 := h[|h| - 1]], 0)
    ensures multiset(h[..|h| - 1][0 := h[|h| - 1]]) == multiset(h) - multiset{h[0]}
  {
    var r := h[..|h| - 1][0 := h[|h| - 1]];
    assert h == h[..|h| - 1] + [h[|h| - 1]];
    forall j: nat | j < |r| && j != 1 && j != 2 ensures AboveParent(r, j) {
      assert AboveParent(h, j);
    }
  }

  method SiftDown(h: seq<Record>) returns (r: seq<Record>)
    requires HeapButForChildrenOf(h, 0)
    ensures IsHeap(r) && multiset(r) == multiset(h)
  {
    r := h;
    var i := 0;
    while 2 * i + 1 < |r|
      invariant multiset(r) == multiset(h) && HeapButForChildrenOf(r, i)
      decreases |r| - i
    {
      var child := 2 * i + 1;
      if child + 1 < |r| && Less(r[child + 1], r[child]) {
        child := child + 1;
      }
      if !Less(r[child], r[i]) {
        return;
      }
      SwapDown(r, i, child);
      r, i := Swap(r, i, child), child;
    }
  }

  method Pop(h: seq<Record>) returns (x: Record, r: seq<Record>)
    requires IsHeap(h) && h != []
    ensures x == h[0]
    ensures IsHeap(r) && multiset(r) == multiset(h) - multiset{x}
  {
    x := h[0];
    var last := h[|h| - 1];
    r := h[..|h| - 1];
    if r == [] {
      assert h == [x];
      return;
    }
    LastReplacesRoot(h);
    r := SiftDown(r[0 := last]);
  }
}
