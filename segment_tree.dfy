/** The segment tree of LearnDataStructures/SegmentTree/SegmentTree.swift: a
    binary tree of nodes, each covering an index range `[leftBound,
    rightBound]` of the array it was built from and caching the merger `function`
    folded over that range. A leaf covers one index; an internal node splits
    its range at the midpoint. */
module SegmentTrees {

  /** `f` folded over `s` from left to right. */
  function Fold<T>(f: (T, T) -> T, s: seq<T>): T
    requires |s| > 0
    decreases |s|
  {
    if |s| == 1 then s[0] else f(Fold(f, s[..|s| - 1]), s[|s| - 1])
  }

  ghost predicate Associative<T(!new)>(f: (T, T) -> T) {
    forall a, b, c :: f(f(a, b), c) == f(a, f(b, c))
  }

  /** For an associative `f`, folding a concatenation combines the folds of
      the parts. */
  lemma {:induction false} FoldConcat<T(!new)>(f: (T, T) -> T, a: seq<T>, b: seq<T>)
    requires Associative(f)
    requires |a| > 0 && |b| > 0
    ensures Fold(f, a + b) == f(Fold(f, a), Fold(f, b))
    decreases |b|
  {
    var ab := a + b;
    assert ab[..|ab| - 1] == a + b[..|b| - 1];
    if |b| > 1 {
      FoldConcat(f, a, b[..|b| - 1]);
    } else {
      assert ab[..|ab| - 1] == a;
    }
  }

  /** A slice of a concatenation, cut at the seam. */
  lemma SliceOfConcat<T>(a: seq<T>, b: seq<T>, x: int, y: int)
    requires 0 <= x <= y <= |a| + |b|
    ensures y <= |a| ==> (a + b)[x..y] == a[x..y]
    ensures |a| <= x ==> (a + b)[x..y] == b[x - |a|..y - |a|]
    ensures x <= |a| <= y ==> (a + b)[x..y] == a[x..] + b[..y - |a|]
  {
  }

  /** The slice of `left + right` for the positions `[l, r]` of a range that
      starts at `lo`, when `right` starts at `mid1` and `[l, r]` lies in it. */
  lemma SliceInRight<T>(e: seq<T>, left: seq<T>, right: seq<T>, lo: int, mid1: int, l: int, r: int)
    requires e == left + right && |left| == mid1 - lo
    requires lo <= mid1 <= l <= r && r - lo < |e|
    ensures e[l - lo..r - lo + 1] == right[l - mid1..r - mid1 + 1]
  {
  }

  /** The same when `[l, r]` lies in `left`, which starts at `lo`. */
  lemma SliceInLeft<T>(e: seq<T>, left: seq<T>, right: seq<T>, lo: int, l: int, r: int)
    requires e == left + right
    requires lo <= l <= r && r - lo < |left|
    ensures e[l - lo..r - lo + 1] == left[l - lo..r - lo + 1]
  {
  }

  /** Two adjacent slices make up the slice that spans both. */
  lemma JoinSlices<T>(s: seq<T>, lo: int, mid: int, hi: int, a: seq<T>, b: seq<T>)
    requires 0 <= lo <= mid < hi < |s|
    requires a == s[lo..mid + 1] && b == s[mid + 1..hi + 1]
    ensures a + b == s[lo..hi + 1]
  {
  }

  /** An update of a concatenation is an update of the part it falls in. */
  lemma UpdateOfConcat<T>(a: seq<T>, b: seq<T>, k: int, v: T)
    requires 0 <= k < |a| + |b|
    ensures k < |a| ==> (a + b)[k := v] == a[k := v] + b
    ensures |a| <= k ==> (a + b)[k := v] == a + b[k - |a| := v]
  {
  }

  /** Where `replaceItem` lands: an index left of the range goes to its first
      leaf and one right of it to its last, since the descent only compares
      `index` with the left child's right bound. */
  function Clamp(index: int, lo: int, hi: int): (c: int)
    requires lo <= hi
    ensures lo <= c <= hi
    ensures lo <= index <= hi ==> c == index
    ensures index < lo ==> c == lo
    ensures hi < index ==> c == hi
  {
    if index < lo then lo else if hi < index then hi else index
  }

  class SegmentTree<T(!new)> {
    /** The cached fold of this node's range. */
    var value: T
    /** The source's `function` field, the merger. */
    const merger: (T, T) -> T
    const leftBound: int
    const rightBound: int
    const leftChild: SegmentTree?<T>
    const rightChild: SegmentTree?<T>
    /** The nodes of this subtree. */
    ghost const Repr: set<object>
    /** The array elements of `[leftBound, rightBound]`, in order. */
    ghost var Elems: seq<T>

    /** The shape, which never changes once built: a leaf has no children;
        an internal node `[l, r]` has children `[l, mid]` and `[mid + 1, r]`
        with `mid == (l + r) / 2`, over disjoint nodes, with the same merger.
        It reads only constant fields. */
    ghost predicate Shape()
      decreases Repr
    {
      && this in Repr
      && leftBound <= rightBound
      && (leftBound == rightBound ==> leftChild == null && rightChild == null)
      && (leftBound < rightBound ==>
            && leftChild != null && rightChild != null
            && leftChild in Repr && rightChild in Repr
            && leftChild.Repr <= Repr && rightChild.Repr <= Repr
            && this !in leftChild.Repr && this !in rightChild.Repr
            && leftChild.Repr !! rightChild.Repr
            && leftChild.merger == merger && rightChild.merger == merger
            && leftChild.leftBound == leftBound
            && leftChild.rightBound == (leftBound + rightBound) / 2
            && rightChild.leftBound == (leftBound + rightBound) / 2 + 1
            && rightChild.rightBound == rightBound
            && leftChild.Shape() && rightChild.Shape())
    }

    /** The cached values: a leaf holds its element, an internal node the
        merger of its children's values. */
    ghost predicate Cached()
      reads this, Repr
      requires Shape()
      decreases Repr
    {
      && |Elems| == rightBound - leftBound + 1
      && (leftBound == rightBound ==> value == Elems[0])
      && (leftBound < rightBound ==>
            && leftChild.Cached() && rightChild.Cached()
            && Elems == leftChild.Elems + rightChild.Elems
            && value == merger(leftChild.value, rightChild.value))
    }

    ghost predicate Valid()
      reads this, Repr
    {
      Shape() && Cached()
    }

    /** A leaf over the one element `x` at position `at`. */
    constructor Leaf(x: T, at: int, f: (T, T) -> T)
      ensures Valid() && Repr == {this}
      ensures leftBound == at && rightBound == at && merger == f
      ensures value == x && Elems == [x]
    {
      leftBound := at;
      rightBound := at;
      merger := f;
      value := x;
      leftChild := null;
      rightChild := null;
      Repr := {this};
      Elems := [x];
    }

    /** An internal node over two adjacent subtrees split at the midpoint,
        caching the merger of their values. */
    constructor Node(l: SegmentTree<T>, r: SegmentTree<T>)
      requires l.Valid() && r.Valid() && l.Repr !! r.Repr && l.merger == r.merger
      requires r.leftBound == l.rightBound + 1
      requires l.rightBound == (l.leftBound + r.rightBound) / 2
      ensures Valid() && Repr == {this} + l.Repr + r.Repr
      ensures leftBound == l.leftBound && rightBound == r.rightBound && merger == l.merger
      ensures leftChild == l && rightChild == r
      ensures value == merger(l.value, r.value) && Elems == l.Elems + r.Elems
    {
      leftBound := l.leftBound;
      rightBound := r.rightBound;
      merger := l.merger;
      leftChild := l;
      rightChild := r;
      value := l.merger(l.value, r.value);
      Repr := {this} + l.Repr + r.Repr;
      Elems := l.Elems + r.Elems;
    }

    /** The private `init(array:leftBound:rightBound:function:)`: builds the
        subtree over `items[lo..hi]`, a leaf when the range has one element,
        otherwise the two halves split at `(lo + hi) / 2`. */
    static method Build(items: seq<T>, lo: int, hi: int, f: (T, T) -> T) returns (t: SegmentTree<T>)
      requires 0 <= lo <= hi < |items|
      ensures t.Valid() && fresh(t.Repr)
      ensures t.leftBound == lo && t.rightBound == hi && t.merger == f
      ensures t.Elems == items[lo..hi + 1]
      decreases hi - lo
    {
      if lo == hi {
        t := new SegmentTree.Leaf(items[lo], lo, f);
      } else {
        var middle := (lo + hi) / 2;
        var l := Build(items, lo, middle, f);
        var r := Build(items, middle + 1, hi, f);
        JoinSlices(items, lo, middle, hi, l.Elems, r.Elems);
        t := new SegmentTree.Node(l, r);
      }
    }

    /** `init(array:function:)`: the tree over the whole of `items`, which must
        not be empty (an empty array makes the construction index it). */
    static method Create(items: seq<T>, f: (T, T) -> T) returns (t: SegmentTree<T>)
      requires |items| > 0
      ensures t.Valid() && fresh(t.Repr)
      ensures t.leftBound == 0 && t.rightBound == |items| - 1 && t.merger == f
      ensures t.Elems == items
    {
      t := Build(items, 0, |items| - 1, f);
    }

    /** For an associative `merger`, every cached value is the fold of the
        node's range. */
    lemma {:induction false} ValueIsFold()
      requires Valid() && Associative(merger)
      ensures value == Fold(merger, Elems)
      decreases Repr
    {
      if leftBound < rightBound {
        leftChild.ValueIsFold();
        rightChild.ValueIsFold();
        FoldConcat(merger, leftChild.Elems, rightChild.Elems);
      }
    }

    /** `query(leftBound:rightBound:)`: a range outside the node's own, or an
        empty one, ends at a leaf whose bounds do not match, which is a fatal
        error. The node's own range is answered from its cache. */
    function Query(l: int, r: int): (v: T)
      reads this, Repr
      requires Valid()
      requires leftBound <= l <= r <= rightBound
      ensures l == leftBound && r == rightBound ==> v == value
      decreases Repr
    {
      if leftBound == l && rightBound == r then
        value
      else
        assert leftChild.Valid() && rightChild.Valid();
        if leftChild.rightBound < l then
          rightChild.Query(l, r)
        else if rightChild.leftBound > r then
          leftChild.Query(l, r)
        else
          merger(leftChild.Query(l, leftChild.rightBound), rightChild.Query(rightChild.leftBound, r))
    }

    /** For an associative `merger`, `query` answers the fold of the elements
        of `[l, r]`. */
    lemma {:induction false} QueryIsFold(l: int, r: int)
      requires Valid() && Associative(merger)
      requires leftBound <= l <= r <= rightBound
      ensures Query(l, r) == Fold(merger, Elems[l - leftBound..r - leftBound + 1])
      decreases Repr, 1
    {
      if leftBound == l && rightBound == r {
        assert Elems[l - leftBound..r - leftBound + 1] == Elems;
        ValueIsFold();
      } else if leftChild.rightBound < l {
        QueryRightIsFold(l, r);
      } else if rightChild.leftBound > r {
        QueryLeftIsFold(l, r);
      } else {
        QuerySplitIsFold(l, r);
      }
    }

    /** What validity says about an internal node's children. */
    lemma ChildFacts()
      requires Valid() && leftBound < rightBound
      ensures leftChild != null && rightChild != null
      ensures leftChild.Valid() && rightChild.Valid()
      ensures leftChild.Repr < Repr && rightChild.Repr < Repr
      ensures leftChild.merger == merger && rightChild.merger == merger
      ensures leftChild.leftBound == leftBound && rightChild.rightBound == rightBound
      ensures rightChild.leftBound == leftChild.rightBound + 1
      ensures Elems == leftChild.Elems + rightChild.Elems
      ensures |leftChild.Elems| == rightChild.leftBound - leftBound
    {
    }

    /** One step of `query` below an internal node. */
    lemma QueryStep(l: int, r: int)
      requires Valid() && leftBound < rightBound
      requires leftBound <= l <= r <= rightBound && !(l == leftBound && r == rightBound)
      ensures leftChild.Valid() && rightChild.Valid()
      ensures leftChild.rightBound < l ==> Query(l, r) == rightChild.Query(l, r)
      ensures rightChild.leftBound > r ==> Query(l, r) == leftChild.Query(l, r)
      ensures l <= leftChild.rightBound < r ==>
        Query(l, r) == merger(leftChild.Query(l, leftChild.rightBound), rightChild.Query(rightChild.leftBound, r))
    {
      ChildFacts();
    }

    /** A range wholly in the right child is answered there. */
    lemma {:induction false} QueryRightIsFold(l: int, r: int)
      requires Valid() && Associative(merger)
      requires leftBound <= l <= r <= rightBound
      requires leftBound < rightBound && leftChild.rightBound < l
      ensures Query(l, r) == Fold(merger, Elems[l - leftBound..r - leftBound + 1])
      decreases Repr, 0
    {
      ChildFacts();
      SliceInRight(Elems, leftChild.Elems, rightChild.Elems, leftBound, rightChild.leftBound, l, r);
      QueryStep(l, r);
      rightChild.QueryIsFold(l, r);
    }

    /** A range wholly in the left child is answered there. */
    lemma {:induction false} QueryLeftIsFold(l: int, r: int)
      requires Valid() && Associative(merger)
      requires leftBound <= l <= r <= rightBound
      requires leftBound < rightBound && leftChild.rightBound >= l && rightChild.leftBound > r
      ensures Query(l, r) == Fold(merger, Elems[l - leftBound..r - leftBound + 1])
      decreases Repr, 0
    {
      ChildFacts();
      SliceInLeft(Elems, leftChild.Elems, rightChild.Elems, leftBound, l, r);
      QueryStep(l, r);
      leftChild.QueryIsFold(l, r);
    }

    /** A range across the midpoint merges the answers of both children. */
    lemma {:induction false} QuerySplitIsFold(l: int, r: int)
      requires Valid() && Associative(merger)
      requires leftBound <= l <= r <= rightBound && !(l == leftBound && r == rightBound)
      requires leftBound < rightBound && leftChild.rightBound >= l && rightChild.leftBound <= r
      ensures Query(l, r) == Fold(merger, Elems[l - leftBound..r - leftBound + 1])
      decreases Repr, 0
    {
      ChildFacts();
      var left, right := leftChild.Elems, rightChild.Elems;
      var mid := leftChild.rightBound;
      SliceOfConcat(left, right, l - leftBound, r - leftBound + 1);
      var a := left[l - leftBound..];
      var b := right[..r - rightChild.leftBound + 1];
      assert Elems[l - leftBound..r - leftBound + 1] == a + b;
      assert a == left[l - leftBound..mid - leftBound + 1];
      assert b == right[0..r - rightChild.leftBound + 1];
      QueryStep(l, r);
      leftChild.QueryIsFold(l, mid);
      rightChild.QueryIsFold(mid + 1, r);
      FoldConcat(merger, a, b);
    }

    /** The update on the way back up: an internal node whose children are
        valid takes the merger of their values. */
    method Recompute()
      requires Shape() && leftBound < rightBound
      requires leftChild.Cached() && rightChild.Cached()
      modifies this
      ensures Valid()
      ensures value == merger(leftChild.value, rightChild.value)
      ensures Elems == leftChild.Elems + rightChild.Elems
    {
      value := merger(leftChild.value, rightChild.value);
      Elems := leftChild.Elems + rightChild.Elems;
    }

    /** `replaceItem(at:withItem:)`: descends left when `index` is at most the
        left child's right bound, sets the leaf, and recomputes the values on
        the way back. The index is not checked: one outside the range replaces
        the first or the last element. Only `value` fields change. */
    method ReplaceItem(index: int, item: T)
      requires Valid()
      modifies Repr
      ensures Valid()
      ensures Elems == old(Elems)[Clamp(index, leftBound, rightBound) - leftBound := item]
      decreases Repr
    {
      if leftBound == rightBound {
        value := item;
        Elems := [item];
      } else {
        ghost var k := Clamp(index, leftBound, rightBound) - leftBound;
        ghost var oldLeft, oldRight := leftChild.Elems, rightChild.Elems;
        ChildFacts();
        UpdateOfConcat(oldLeft, oldRight, k, item);
        if leftChild.rightBound >= index {
          assert Clamp(index, leftChild.leftBound, leftChild.rightBound) - leftChild.leftBound == k;
          leftChild.ReplaceItem(index, item);
          assert leftChild.Elems == oldLeft[k := item];
          assert rightChild.Valid() && rightChild.Elems == oldRight;
        } else {
          assert Clamp(index, rightChild.leftBound, rightChild.rightBound) - rightChild.leftBound ==
            k - |oldLeft|;
          rightChild.ReplaceItem(index, item);
          assert rightChild.Elems == oldRight[k - |oldLeft| := item];
          assert leftChild.Valid() && leftChild.Elems == oldLeft;
        }
        Recompute();
      }
    }
  }
}
