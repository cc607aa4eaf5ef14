/** The binary heap of LearnDataStructures/Heap/Heap.swift and the priority
    queue of LearnDataStructures/Heap/PriorityQueue.swift built on it. The
    complete binary tree is laid out in `nodes` by level; the caller's
    `orderCriteria(a, b)` says that `a` must come out before `b`. */
module Heaps {
  import opened Wrappers

  /** What the source takes for granted of `orderCriteria`: it is a strict weak
      order (irreflexive, transitive, and "neither before the other" is
      transitive, stated as negative transitivity). */
  ghost predicate StrictWeakOrder<T(!new)>(ord: (T, T) -> bool) {
    && (forall a :: !ord(a, a))
    && (forall a, b, c :: ord(a, b) && ord(b, c) ==> ord(a, c))
    && (forall a, b, c :: !ord(a, b) && !ord(b, c) ==> !ord(a, c))
  }

  /** `parentIndex(ofIndex:)`: `(i - 1) / 2` with Swift's division, which
      truncates toward zero, so index 0 is its own parent. */
  function ParentIndex(i: nat): (p: nat)
    ensures i > 0 ==> p < i
    ensures i > 0 ==> i == 2 * p + 1 || i == 2 * p + 2
  {
    if i == 0 then 0 else (i - 1) / 2
  }

  function LeftChildIndex(i: nat): (l: nat)
    ensures l > i && ParentIndex(l) == i
  {
    2 * i + 1
  }

  function RightChildIndex(i: nat): (r: nat)
    ensures r > i && ParentIndex(r) == i
    ensures r == LeftChildIndex(i) + 1
  {
    2 * i + 2
  }

  /** The heap property: no node is ordered before its parent. */
  ghost predicate IsHeap<T>(s: seq<T>, ord: (T, T) -> bool) {
    forall k :: 0 < k < |s| ==> !ord(s[k], s[ParentIndex(k)])
  }

  /** The heap property on the part of `s[..end]` whose parents lie at `lo` or
      beyond, except for the edges from `i` down to its children. */
  ghost predicate HeapBelowExcept<T>(s: seq<T>, ord: (T, T) -> bool, lo: nat, end: nat, i: nat)
    requires end <= |s|
  {
    forall k :: 0 < k < end && lo <= ParentIndex(k) && ParentIndex(k) != i ==>
      !ord(s[k], s[ParentIndex(k)])
  }

  ghost predicate HeapBelow<T>(s: seq<T>, ord: (T, T) -> bool, lo: nat, end: nat)
    requires end <= |s|
  {
    forall k :: 0 < k < end && lo <= ParentIndex(k) ==> !ord(s[k], s[ParentIndex(k)])
  }

  /** The children of `i` may be compared with the parent of `i` as if `i` were
      not there. */
  ghost predicate ChildrenFitAbove<T>(s: seq<T>, ord: (T, T) -> bool, lo: nat, end: nat, i: nat)
    requires end <= |s|
  {
    i > 0 && lo <= ParentIndex(i) && i < |s| ==>
      forall k :: 0 < k < end && ParentIndex(k) == i ==> !ord(s[k], s[ParentIndex(i)])
  }

  /** In a heap nothing is ordered before the root. */
  lemma {:induction false} RootIsFirst<T(!new)>(s: seq<T>, ord: (T, T) -> bool, k: nat)
    requires StrictWeakOrder(ord)
    requires IsHeap(s, ord)
    requires k < |s|
    ensures !ord(s[k], s[0])
    decreases k
  {
    if k > 0 {
      RootIsFirst(s, ord, ParentIndex(k));
    }
  }

  class Heap<T(!new)> {
    var nodes: seq<T>
    const orderCriteria: (T, T) -> bool

    ghost predicate Valid()
      reads this
    {
      StrictWeakOrder(orderCriteria) && IsHeap(nodes, orderCriteria)
    }

    /** `init(sort:)`: an empty heap. */
    constructor (sort: (T, T) -> bool)
      requires StrictWeakOrder(sort)
      ensures Valid()
      ensures nodes == [] && orderCriteria == sort
    {
      nodes := [];
      orderCriteria := sort;
    }

    /** `init(array:sort:)`: heapifies `array`. */
    constructor FromArray(items: seq<T>, sort: (T, T) -> bool)
      requires StrictWeakOrder(sort)
      ensures Valid()
      ensures multiset(nodes) == multiset(items) && |nodes| == |items|
      ensures orderCriteria == sort
    {
      orderCriteria := sort;
      nodes := [];
      new;
      ConfigureHeap(items);
    }

    /** `configureHeap(from:)`: takes `items` and sifts every internal node down,
        from the last one up to the root. For 0 or 1 items the stride is empty
        and no sift happens. */
    method ConfigureHeap(items: seq<T>)
      requires StrictWeakOrder(orderCriteria)
      modifies this
      ensures Valid()
      ensures multiset(nodes) == multiset(items) && |nodes| == |items|
      ensures |items| <= 1 ==> nodes == items
    {
      nodes := items;
      for i := |nodes| / 2 downto 0
        invariant |nodes| == |items|
        invariant multiset(nodes) == multiset(items)
        invariant HeapBelow(nodes, orderCriteria, i, |nodes|)
        invariant |items| <= 1 ==> nodes == items
      {
        SiftDownRestoresHeap(nodes, orderCriteria, i, |nodes|, i);
        ShiftDown(i);
      }
    }

    function IsEmpty(): (b: bool)
      reads this
      ensures b <==> |nodes| == 0
    {
      |nodes| == 0
    }

    function Count(): (n: nat)
      reads this
      ensures n == |nodes|
    {
      |nodes|
    }

    /** `peek()`: the root, which nothing in the heap is ordered before. */
    function Peek(): (r: Option<T>)
      reads this
      requires Valid()
      ensures r.None? <==> nodes == []
      ensures r.Some? ==> r.value == nodes[0]
      ensures r.Some? ==> forall k :: 0 <= k < |nodes| ==> !orderCriteria(nodes[k], r.value)
    {
      if |nodes| == 0 then None
      else
        assert forall k :: 0 <= k < |nodes| ==> !orderCriteria(nodes[k], nodes[0]) by {
          forall k | 0 <= k < |nodes| ensures !orderCriteria(nodes[k], nodes[0]) {
            RootIsFirst(nodes, orderCriteria, k);
          }
        }
        Some(nodes[0])
    }

    /** `insert(_:)`: appends `value` and sifts it up. */
    method Insert(value: T)
      requires Valid()
      modifies this
      ensures Valid()
      ensures multiset(nodes) == old(multiset(nodes)) + multiset{value}
      ensures |nodes| == old(|nodes|) + 1
    {
      nodes := nodes + [value];
      ShiftUp(|nodes| - 1);
    }

    /** `replace(value:)`: overwrites the root and sifts it down; nil and no
        change on an empty heap. */
    method Replace(value: T) returns (r: Option<T>)
      requires Valid()
      modifies this
      ensures Valid()
      ensures old(nodes) == [] ==> r == None && nodes == old(nodes)
      ensures old(nodes) != [] ==>
        r == Some(old(nodes[0])) &&
        multiset(nodes) == old(multiset(nodes)) - multiset{old(nodes[0])} + multiset{value}
      ensures |nodes| == old(|nodes|)
    {
      if |nodes| == 0 {
        return None;
      }
      r := Some(nodes[0]);
      nodes := nodes[0 := value];
      SiftDownRestoresHeap(nodes, orderCriteria, 0, |nodes|, 0);
      ShiftDown(0);
    }

    /** `remove()`: takes out the root; the last node moves to the root and is
        sifted down. Nil on an empty heap. */
    method Remove() returns (r: Option<T>)
      requires Valid()
      modifies this
      ensures Valid()
      ensures r.None? <==> old(nodes) == []
      ensures r.None? ==> nodes == old(nodes)
      ensures r.Some? ==>
        r.value == old(nodes[0]) &&
        multiset(nodes) == old(multiset(nodes)) - multiset{r.value} &&
        |nodes| == old(|nodes|) - 1
    {
      if |nodes| == 0 {
        return None;
      }
      if |nodes| == 1 {
        r := Some(nodes[0]);
        nodes := [];
        return;
      }
      var value := nodes[0];
      MoveLastToRoot(nodes, orderCriteria);
      nodes := nodes[..|nodes| - 1][0 := nodes[|nodes| - 1]];
      SiftDownRestoresHeap(nodes, orderCriteria, 0, |nodes|, 0);
      ShiftDown(0);
      r := Some(value);
    }

    /** `shiftUp(_:)`: holds the node at `index` aside and moves ancestors that
        it must precede one level down, then drops it into the hole. The ghost
        `a` is the array with the held node put back into the hole. */
    method ShiftUp(index: nat)
      requires StrictWeakOrder(orderCriteria)
      requires index < |nodes|
      requires HoleAt(nodes, orderCriteria, index)
      modifies this
      ensures Valid()
      ensures multiset(nodes) == old(multiset(nodes)) && |nodes| == old(|nodes|)
    {
      var childIndex := index;
      var child := nodes[childIndex];
      var parentIndex := ParentIndex(childIndex);
      assert nodes[childIndex := child] == nodes;
      while childIndex > 0 && orderCriteria(child, nodes[parentIndex])
        invariant childIndex < |nodes| == old(|nodes|)
        invariant parentIndex == ParentIndex(childIndex)
        invariant multiset(nodes[childIndex := child]) == old(multiset(nodes))
        invariant HoleAt(nodes[childIndex := child], orderCriteria, childIndex)
        decreases childIndex
      {
        ShiftUpStep(nodes, orderCriteria, childIndex, child);
        nodes := nodes[childIndex := nodes[parentIndex]];
        childIndex := parentIndex;
        parentIndex := ParentIndex(childIndex);
      }
      nodes := nodes[childIndex := child];
      HoleClosed(nodes, orderCriteria, childIndex);
    }

    /** `shiftDown(from:until:)`: among `index` and its children below
        `endIndex`, finds the one to come first; if it is a child, swaps and
        continues from there. */
    method ShiftDownFrom(index: nat, endIndex: nat)
      requires endIndex <= |nodes|
      modifies this
      ensures nodes == SiftDown(old(nodes), orderCriteria, index, endIndex)
      ensures multiset(nodes) == multiset(old(nodes)) && |nodes| == |old(nodes)|
      decreases endIndex - index
    {
      SiftDownPermutes(nodes, orderCriteria, index, endIndex);
      var leftChildIndex := LeftChildIndex(index);
      var rightChildIndex := leftChildIndex + 1;
      var first := index;
      if leftChildIndex < endIndex && orderCriteria(nodes[leftChildIndex], nodes[first]) {
        first := leftChildIndex;
      }
      if rightChildIndex < endIndex && orderCriteria(nodes[rightChildIndex], nodes[first]) {
        first := rightChildIndex;
      }
      if first == index {
        return;
      }
      nodes := nodes[index := nodes[first]][first := nodes[index]];
      ShiftDownFrom(first, endIndex);
    }

    /** `shiftDown(_:)`: sifts down through the whole array. */
    method ShiftDown(index: nat)
      modifies this
      ensures nodes == SiftDown(old(nodes), orderCriteria, index, |old(nodes)|)
      ensures multiset(nodes) == multiset(old(nodes)) && |nodes| == |old(nodes)|
    {
      ShiftDownFrom(index, |nodes|);
    }
  }

  /** What `shiftDown(from:until:)` does to the array `s`. */
  ghost function SiftDown<T>(s: seq<T>, ord: (T, T) -> bool, i: nat, end: nat): (t: seq<T>)
    requires end <= |s|
    ensures |t| == |s|
    decreases end - i
  {
    var first := PickFirst(s, ord, i, end);
    if first == i then s else SiftDown(s[i := s[first]][first := s[i]], ord, first, end)
  }

  /** Whatever the array, sifting down only swaps, so it permutes the
      elements. */
  lemma {:induction false} SiftDownPermutes<T>(s: seq<T>, ord: (T, T) -> bool, i: nat, end: nat)
    requires end <= |s|
    ensures multiset(SiftDown(s, ord, i, end)) == multiset(s)
    decreases end - i
  {
    var first := PickFirst(s, ord, i, end);
    if first != i {
      SwapKeepsElements(s, i, first);
      SiftDownPermutes(s[i := s[first]][first := s[i]], ord, first, end);
    }
  }

  /** The position `shiftDown` moves to: the right child if it is to precede
      the better of `i` and its left child, else that one. */
  function PickFirst<T>(s: seq<T>, ord: (T, T) -> bool, i: nat, end: nat): (first: nat)
    requires end <= |s|
    ensures first == i || (first > i && first < end)
  {
    var l := LeftChildIndex(i);
    var r := l + 1;
    var f0 := if l < end && ord(s[l], s[i]) then l else i;
    if r < end && ord(s[r], s[f0]) then r else f0
  }

  /** Sifting down from `i` restores the heap property of the part of
      `s[..end]` whose parents lie at `lo` or beyond, when it held there except
      on the edges from `i` to its children; it only permutes, and it leaves the
      positions before `i` and from `end` on alone. */
  lemma {:induction false} SiftDownRestoresHeap<T(!new)>(s: seq<T>, ord: (T, T) -> bool, lo: nat, end: nat, i: nat)
    requires StrictWeakOrder(ord)
    requires end <= |s| && lo <= i
    requires HeapBelowExcept(s, ord, lo, end, i)
    requires ChildrenFitAbove(s, ord, lo, end, i)
    ensures multiset(SiftDown(s, ord, i, end)) == multiset(s)
    ensures HeapBelow(SiftDown(s, ord, i, end), ord, lo, end)
    ensures forall j :: 0 <= j < |s| && (j < i || end <= j) ==> SiftDown(s, ord, i, end)[j] == s[j]
    decreases end - i
  {
    var first := PickFirst(s, ord, i, end);
    if first == i {
      if i < end {
        PickedChildIsFirst(s, ord, end, i);
      }
      ChildrenPrecedeNot(s, ord, lo, end, i);
    } else {
      PickedChildIsFirst(s, ord, end, i);
      var t := s[i := s[first]][first := s[i]];
      SwapDownKeepsHeap(s, ord, lo, end, i, first);
      SwapKeepsElements(s, i, first);
      SiftDownRestoresHeap(t, ord, lo, end, first);
      assert SiftDown(s, ord, i, end) == SiftDown(t, ord, first, end);
    }
  }

  /** Swapping two positions keeps the multiset of elements. */
  lemma SwapKeepsElements<T>(s: seq<T>, i: nat, j: nat)
    requires i < |s| && j < |s|
    ensures multiset(s[i := s[j]][j := s[i]]) == multiset(s)
  {
    if i != j {
      calc {
        multiset(s[i := s[j]][j := s[i]]);
        multiset(s[i := s[j]]) - multiset{s[i := s[j]][j]} + multiset{s[i]};
        multiset(s) - multiset{s[i]} + multiset{s[j]} - multiset{s[j]} + multiset{s[i]};
        multiset(s);
      }
    }
  }

  /** The child that `shiftDown` picks is one that neither child of `i` is to
      precede, and that itself is to precede `i`. */
  lemma PickedChildIsFirst<T(!new)>(s: seq<T>, ord: (T, T) -> bool, end: nat, i: nat)
    requires StrictWeakOrder(ord)
    requires end <= |s| && i < end
    ensures var first := PickFirst(s, ord, i, end);
      && (first == i || first == LeftChildIndex(i) || first == RightChildIndex(i))
      && (first != i ==> ord(s[first], s[i]))
      && (LeftChildIndex(i) < end ==> !ord(s[LeftChildIndex(i)], s[first]))
      && (RightChildIndex(i) < end ==> !ord(s[RightChildIndex(i)], s[first]))
  {
    var l, r := LeftChildIndex(i), RightChildIndex(i);
    var first := PickFirst(s, ord, i, end);
    if first == r && l < end && !ord(s[l], s[i]) {
      if ord(s[l], s[r]) {
      }
    }
  }

  /** One turn of the sift-up loop, on the array with the held node `child`
      put back into the hole `ci`: moving the parent down into the hole moves
      the hole to the parent, and the held node may go there. */
  lemma ShiftUpStep<T(!new)>(s: seq<T>, ord: (T, T) -> bool, ci: nat, child: T)
    requires StrictWeakOrder(ord)
    requires 0 < ci < |s|
    requires ord(child, s[ParentIndex(ci)])
    requires HoleAt(s[ci := child], ord, ci)
    ensures var p := ParentIndex(ci);
      var t := s[ci := s[p]];
      && multiset(t[p := child]) == multiset(s[ci := child])
      && HoleAt(t[p := child], ord, p)
  {
    var p := ParentIndex(ci);
    var a := s[ci := child];
    SwapUpKeepsHeap(a, ord, ci);
    SwapKeepsElements(a, ci, p);
    assert s[ci := s[p]][p := child] == a[ci := a[p]][p := a[ci]];
  }

  /** The heap property everywhere except on the edge into `i`, and the
      children of `i` fit under the parent of `i`: the state of a sift-up. */
  ghost predicate HoleAt<T>(s: seq<T>, ord: (T, T) -> bool, i: nat)
    requires i < |s|
  {
    && (forall k :: 0 < k < |s| && k != i ==> !ord(s[k], s[ParentIndex(k)]))
    && (i > 0 ==> forall k :: 0 < k < |s| && ParentIndex(k) == i ==> !ord(s[k], s[ParentIndex(i)]))
  }

  /** A sift-up stops at the root or below a parent the node need not precede. */
  lemma HoleClosed<T>(s: seq<T>, ord: (T, T) -> bool, i: nat)
    requires i < |s|
    requires forall k :: 0 < k < |s| && k != i ==> !ord(s[k], s[ParentIndex(k)])
    requires i > 0 ==> !ord(s[i], s[ParentIndex(i)])
    ensures IsHeap(s, ord)
  {
  }

  /** `remove()` before its sift: the last node is moved onto the root, and the
      heap property holds below the root. */
  lemma MoveLastToRoot<T>(s: seq<T>, ord: (T, T) -> bool)
    requires IsHeap(s, ord) && |s| > 1
    ensures var t := s[..|s| - 1][0 := s[|s| - 1]];
      && HeapBelowExcept(t, ord, 0, |t|, 0)
      && multiset(t) == multiset(s) - multiset{s[0]}
  {
    var t := s[..|s| - 1][0 := s[|s| - 1]];
    assert s == [s[0]] + s[1..|s| - 1] + [s[|s| - 1]];
    assert t == [s[|s| - 1]] + s[1..|s| - 1];
  }

  /** When no child of `i` is to precede it, the partial heap property extends
      to the edges from `i`. */
  lemma ChildrenPrecedeNot<T>(s: seq<T>, ord: (T, T) -> bool, lo: nat, end: nat, i: nat)
    requires end <= |s| && lo <= i
    requires HeapBelowExcept(s, ord, lo, end, i)
    requires LeftChildIndex(i) < end ==> !ord(s[LeftChildIndex(i)], s[i])
    requires RightChildIndex(i) < end ==> !ord(s[RightChildIndex(i)], s[i])
    ensures HeapBelow(s, ord, lo, end)
  {
    forall k | 0 < k < end && lo <= ParentIndex(k)
      ensures !ord(s[k], s[ParentIndex(k)])
    {
      if ParentIndex(k) == i {
        assert k == LeftChildIndex(i) || k == RightChildIndex(i);
      }
    }
  }

  /** One step of the sift-up loop: swapping the held node (at `ci` in `a`)
      with its parent moves the hole one level up. */
  lemma SwapUpKeepsHeap<T(!new)>(a: seq<T>, ord: (T, T) -> bool, ci: nat)
    requires StrictWeakOrder(ord)
    requires 0 < ci < |a|
    requires ord(a[ci], a[ParentIndex(ci)])
    requires HoleAt(a, ord, ci)
    ensures HoleAt(a[ci := a[ParentIndex(ci)]][ParentIndex(ci) := a[ci]], ord, ParentIndex(ci))
  {
    var p := ParentIndex(ci);
    var b := a[ci := a[p]][p := a[ci]];
    forall k | 0 < k < |b| && k != p
      ensures !ord(b[k], b[ParentIndex(k)])
    {
      if k == ci {
      } else if ParentIndex(k) == ci {
      } else if ParentIndex(k) == p {
        assert !ord(a[k], a[p]);
      }
    }
    if p > 0 {
      forall k | 0 < k < |b| && ParentIndex(k) == p
        ensures !ord(b[k], b[ParentIndex(p)])
      {
        assert !ord(a[p], a[ParentIndex(p)]);
        if k != ci {
          assert !ord(a[k], a[p]);
        }
      }
    }
  }

  /** Swapping `i` with the child `first` that must precede it (the first of
      the children in the order) leaves the array ready for the recursive sift
      from `first`. */
  lemma SwapDownKeepsHeap<T(!new)>(s: seq<T>, ord: (T, T) -> bool, lo: nat, end: nat, i: nat, first: nat)
    requires StrictWeakOrder(ord)
    requires end <= |s| && lo <= i < first < end
    requires first == LeftChildIndex(i) || first == RightChildIndex(i)
    requires HeapBelowExcept(s, ord, lo, end, i)
    requires ChildrenFitAbove(s, ord, lo, end, i)
    requires ord(s[first], s[i])
    requires LeftChildIndex(i) < end ==> !ord(s[LeftChildIndex(i)], s[first])
    requires RightChildIndex(i) < end ==> !ord(s[RightChildIndex(i)], s[first])
    ensures var t := s[i := s[first]][first := s[i]];
      HeapBelowExcept(t, ord, lo, end, first) && ChildrenFitAbove(t, ord, lo, end, first)
  {
    var t := s[i := s[first]][first := s[i]];
    var sibling := if first == LeftChildIndex(i) then RightChildIndex(i) else LeftChildIndex(i);
    assert !ord(s[i], s[first]);
    if sibling < end {
      assert !ord(s[sibling], s[first]);
    }
    forall k | 0 < k < end && lo <= ParentIndex(k) && ParentIndex(k) != first
      ensures !ord(t[k], t[ParentIndex(k)])
    {
      if ParentIndex(k) == i {
        assert k == first || k == sibling;
      }
    }
  }

  /** `PriorityQueue`: a queue whose `dequeue` hands out the element that the
      sort predicate puts first, delegating to a `Heap`. */
  class PriorityQueue<T(!new)> {
    const heap: Heap<T>

    ghost predicate Valid()
      reads this, heap
    {
      heap.Valid()
    }

    /** The queued elements, as a multiset. */
    ghost function Elements(): multiset<T>
      reads this, heap
    {
      multiset(heap.nodes)
    }

    constructor (sort: (T, T) -> bool)
      requires StrictWeakOrder(sort)
      ensures Valid() && fresh(heap)
      ensures Elements() == multiset{} && heap.orderCriteria == sort
    {
      heap := new Heap(sort);
    }

    function IsEmpty(): (b: bool)
      reads this, heap
      ensures b <==> Count() == 0
      ensures b <==> Elements() == multiset{}
    {
      heap.IsEmpty()
    }

    function Count(): (n: nat)
      reads this, heap
      ensures n == |Elements()|
    {
      heap.Count()
    }

    method Enqueue(element: T)
      requires Valid()
      modifies heap
      ensures Valid()
      ensures Elements() == old(Elements()) + multiset{element}
      ensures Count() == old(Count()) + 1
    {
      heap.Insert(element);
    }

    /** `dequeue()`: nil on an empty queue; otherwise the root that `front`
        reports, an element no queued element is ordered before. */
    method Dequeue() returns (r: Option<T>)
      requires Valid()
      modifies heap
      ensures Valid()
      ensures r.None? <==> old(Elements()) == multiset{}
      ensures r.None? ==> Elements() == old(Elements())
      ensures r.Some? ==>
        r.value in old(Elements()) &&
        Elements() == old(Elements()) - multiset{r.value} &&
        Count() == old(Count()) - 1 &&
        (forall x :: x in old(Elements()) ==> !heap.orderCriteria(x, r.value))
      ensures r == old(Front())
    {
      ghost var before := heap.nodes;
      r := heap.Remove();
      if r.Some? {
        forall x | x in multiset(before) ensures !heap.orderCriteria(x, r.value) {
          var k :| 0 <= k < |before| && before[k] == x;
          RootIsFirst(before, heap.orderCriteria, k);
        }
      }
    }

    /** `front`: what the next `dequeue` returns, without removing it. */
    function Front(): (r: Option<T>)
      reads this, heap
      requires Valid()
      ensures r.None? <==> Elements() == multiset{}
      ensures r.Some? ==> r.value in Elements()
      ensures r.Some? ==> forall x :: x in Elements() ==> !heap.orderCriteria(x, r.value)
      ensures r.Some? ==> r.value == heap.nodes[0]
    {
      var p := heap.Peek();
      assert p.Some? ==> p.value == heap.nodes[0] && p.value in multiset(heap.nodes);
      assert p.Some? ==> forall x :: x in multiset(heap.nodes) ==> !heap.orderCriteria(x, p.value) by {
        if p.Some? {
          forall x | x in multiset(heap.nodes) ensures !heap.orderCriteria(x, p.value) {
            var k :| 0 <= k < |heap.nodes| && heap.nodes[k] == x;
          }
        }
      }
      p
    }
  }
}
