/** The disjoint-set forest of LearnDataStructures/UnionFind/UnionFind.swift:
    every registered element has an integer id; `parent` links ids towards the
    root of their set, and `size` at a root is the size of that set. Finding a
    root compresses the path; union hangs the smaller set under the larger. */
module UnionFinds {
  import opened Wrappers

  /** `parent` is a forest: every link stays in range, and `dist`, a ghost
      measure, strictly drops along every link (so following links ends). */
  ghost predicate Forest(parent: seq<int>, dist: seq<nat>) {
    && |parent| == |dist|
    && (forall i :: 0 <= i < |parent| ==> 0 <= parent[i] < |parent|)
    && (forall i :: 0 <= i < |parent| && parent[i] != i ==> dist[parent[i]] < dist[i])
  }

  /** The root reached from id `i` by following `parent`. */
  ghost function Root(parent: seq<int>, dist: seq<nat>, i: int): (r: int)
    requires Forest(parent, dist) && 0 <= i < |parent|
    ensures 0 <= r < |parent| && parent[r] == r
    ensures parent[i] == i ==> r == i
    ensures parent[i] != i ==> dist[r] < dist[i]
    decreases dist[i]
  {
    if parent[i] == i then i else Root(parent, dist, parent[i])
  }

  /** What `setByIndex` makes of `parent`: the ids on the path from `i`, from
      the top down, are pointed straight at their root. */
  ghost function Compress(parent: seq<int>, dist: seq<nat>, i: int): (r: seq<int>)
    requires Forest(parent, dist) && 0 <= i < |parent|
    ensures |r| == |parent| && Forest(r, dist)
    ensures r[i] == Root(parent, dist, i)
    ensures forall j :: 0 <= j < |parent| ==> Root(r, dist, j) == Root(parent, dist, j)
    ensures forall j :: 0 <= j < |parent| && dist[j] > dist[i] ==> r[j] == parent[j]
    decreases dist[i]
  {
    if parent[i] == i then parent
    else
      var q := Compress(parent, dist, parent[i]);
      var root := Root(parent, dist, i);
      ReparentToRoot(q, dist, i, root);
      q[i := root]
  }

  /** Pointing a non-root id straight at its root keeps the forest and every
      id's root. */
  lemma ReparentToRoot(q: seq<int>, dist: seq<nat>, i: int, root: int)
    requires Forest(q, dist) && 0 <= i < |q| && q[i] != i
    requires root == Root(q, dist, i)
    ensures Forest(q[i := root], dist)
    ensures forall j :: 0 <= j < |q| ==> Root(q[i := root], dist, j) == Root(q, dist, j)
  {
    forall j | 0 <= j < |q| ensures Root(q[i := root], dist, j) == Root(q, dist, j) {
      ReparentRoot(q, dist, i, root, j);
    }
  }

  lemma {:induction false} ReparentRoot(q: seq<int>, dist: seq<nat>, i: int, root: int, j: int)
    requires Forest(q, dist) && 0 <= i < |q| && q[i] != i
    requires root == Root(q, dist, i)
    requires 0 <= j < |q|
    ensures Forest(q[i := root], dist)
    ensures Root(q[i := root], dist, j) == Root(q, dist, j)
    decreases dist[j]
  {
    var r := q[i := root];
    if j != i && q[j] != j {
      ReparentRoot(q, dist, i, root, q[j]);
    }
  }

  /** The measure after `parent[a] := b` for distinct roots `a` and `b`: the
      ids of the set of `a` are lifted above `b`. */
  ghost function LinkDist(parent: seq<int>, dist: seq<nat>, a: int, b: int): (d: seq<nat>)
    requires Forest(parent, dist) && 0 <= b < |parent|
    ensures |d| == |dist|
  {
    seq(|dist|, j requires 0 <= j < |dist| =>
      if Root(parent, dist, j) == a then dist[j] + dist[b] + 1 else dist[j])
  }

  /** Hanging root `a` under root `b` gives a forest in which the ids of the
      set of `a` now have root `b`, and every other id keeps its root. */
  lemma LinkRoots(parent: seq<int>, dist: seq<nat>, a: int, b: int) returns (d: seq<nat>)
    requires Forest(parent, dist)
    requires 0 <= a < |parent| && 0 <= b < |parent| && a != b
    requires parent[a] == a && parent[b] == b
    ensures Forest(parent[a := b], d)
    ensures forall j :: 0 <= j < |parent| ==>
      Root(parent[a := b], d, j) == (if Root(parent, dist, j) == a then b else Root(parent, dist, j))
  {
    d := LinkDist(parent, dist, a, b);
    var p := parent[a := b];
    forall i | 0 <= i < |p| && p[i] != i ensures d[p[i]] < d[i] {
      if i != a {
        assert Root(parent, dist, i) == Root(parent, dist, parent[i]);
      }
    }
    forall j | 0 <= j < |parent|
      ensures Root(p, d, j) == if Root(parent, dist, j) == a then b else Root(parent, dist, j)
    {
      LinkRoot(parent, dist, a, b, j);
    }
  }

  lemma {:induction false} LinkRoot(parent: seq<int>, dist: seq<nat>, a: int, b: int, j: int)
    requires Forest(parent, dist)
    requires 0 <= a < |parent| && 0 <= b < |parent| && a != b
    requires parent[a] == a && parent[b] == b
    requires Forest(parent[a := b], LinkDist(parent, dist, a, b))
    requires 0 <= j < |parent|
    ensures Root(parent[a := b], LinkDist(parent, dist, a, b), j) ==
      (if Root(parent, dist, j) == a then b else Root(parent, dist, j))
    decreases dist[j]
  {
    if parent[j] != j {
      LinkRoot(parent, dist, a, b, parent[j]);
    }
  }

  /** Adding a new id that is its own root leaves every old id's root alone. */
  lemma {:induction false} AppendRootKeepsRoot(parent: seq<int>, dist: seq<nat>, j: int)
    requires Forest(parent, dist) && 0 <= j < |parent|
    requires Forest(parent + [|parent|], dist + [0])
    ensures Root(parent + [|parent|], dist + [0], j) == Root(parent, dist, j)
    decreases dist[j]
  {
    if parent[j] != j {
      AppendRootKeepsRoot(parent, dist, parent[j]);
    }
  }

  /** Every id has the same root in the two forests. */
  ghost predicate SameRoots(p: seq<int>, d: seq<nat>, p0: seq<int>, d0: seq<nat>)
    requires Forest(p, d) && Forest(p0, d0) && |p| == |p0|
  {
    forall j :: 0 <= j < |p| ==> Root(p, d, j) == Root(p0, d0, j)
  }

  /** The sets of roots `a` and `b` in `p0` are one set of root `w` in `p`;
      every other id has the same root in both. */
  ghost predicate MergedRoots(p: seq<int>, d: seq<nat>, p0: seq<int>, d0: seq<nat>, a: int, b: int, w: int)
    requires Forest(p, d) && Forest(p0, d0) && |p| == |p0|
  {
    forall j :: 0 <= j < |p| ==>
      Root(p, d, j) == (if Root(p0, d0, j) == a || Root(p0, d0, j) == b then w else Root(p0, d0, j))
  }

  /** The ids whose root is `r`: the set of root `r`. */
  ghost function Members(parent: seq<int>, dist: seq<nat>, r: int): set<int>
    requires Forest(parent, dist)
  {
    set j | 0 <= j < |parent| && Root(parent, dist, j) == r
  }

  /** `size` at every root is the number of ids in its set. */
  ghost predicate SizesCount(parent: seq<int>, dist: seq<nat>, size: seq<int>)
    requires Forest(parent, dist) && |size| == |parent|
  {
    forall r :: 0 <= r < |parent| && parent[r] == r ==> size[r] == |Members(parent, dist, r)|
  }

  /** A change of links that keeps every id's root keeps the sets, so the
      sizes still count them. */
  lemma SameRootsKeepSizes(p: seq<int>, d: seq<nat>, p0: seq<int>, d0: seq<nat>, size: seq<int>)
    requires Forest(p, d) && Forest(p0, d0) && |p| == |p0| == |size|
    requires SameRoots(p, d, p0, d0)
    requires SizesCount(p0, d0, size)
    ensures SizesCount(p, d, size)
  {
    forall r | 0 <= r < |p| && p[r] == r ensures size[r] == |Members(p, d, r)| {
      assert Root(p0, d0, r) == r;
      assert Members(p, d, r) == Members(p0, d0, r);
    }
  }

  /** A new id that is its own root forms a set of one, and the old sets stay
      as they were. */
  lemma AppendRootSizes(p0: seq<int>, d0: seq<nat>, size0: seq<int>)
    requires Forest(p0, d0) && |size0| == |p0| && SizesCount(p0, d0, size0)
    requires Forest(p0 + [|p0|], d0 + [0])
    requires forall j :: 0 <= j < |p0| ==> Root(p0 + [|p0|], d0 + [0], j) == Root(p0, d0, j)
    ensures SizesCount(p0 + [|p0|], d0 + [0], size0 + [1])
  {
    var p, d, n := p0 + [|p0|], d0 + [0], |p0|;
    forall r | 0 <= r < |p| && p[r] == r ensures (size0 + [1])[r] == |Members(p, d, r)| {
      if r == n {
        assert Members(p, d, r) == {n};
      } else {
        assert Members(p, d, r) == Members(p0, d0, r);
      }
    }
  }

  /** After union by size of two roots, the surviving root counts both sets,
      which were disjoint, and every other root keeps its set. */
  lemma UnionSizes(p0: seq<int>, d0: seq<nat>, size0: seq<int>, p: seq<int>, d: seq<nat>, size: seq<int>, a: int, b: int)
    requires UnionBySize(p0, d0, size0, p, d, size, a, b)
    requires p0[a] == a && p0[b] == b
    requires SizesCount(p0, d0, size0)
    ensures |size| == |p| && SizesCount(p, d, size)
  {
    var w := if size0[a] < size0[b] then b else a;
    var l := if w == b then a else b;
    assert p[l] == w && MergedRoots(p, d, p0, d0, a, b, w);
    forall r | 0 <= r < |p| && p[r] == r ensures size[r] == |Members(p, d, r)| {
      if r == w {
        MergedMembers(p, d, p0, d0, a, b, w);
      } else {
        assert r != l;
        KeptMembers(p, d, p0, d0, a, b, w, r);
      }
    }
  }

  /** The merged set is the union of the two old sets, which were disjoint. */
  lemma MergedMembers(p: seq<int>, d: seq<nat>, p0: seq<int>, d0: seq<nat>, a: int, b: int, w: int)
    requires Forest(p, d) && Forest(p0, d0) && |p| == |p0|
    requires a != b && (w == a || w == b)
    requires MergedRoots(p, d, p0, d0, a, b, w)
    ensures Members(p, d, w) == Members(p0, d0, a) + Members(p0, d0, b)
    ensures |Members(p, d, w)| == |Members(p0, d0, a)| + |Members(p0, d0, b)|
  {
    assert Members(p, d, w) == Members(p0, d0, a) + Members(p0, d0, b);
    assert Members(p0, d0, a) !! Members(p0, d0, b);
  }

  /** A root of the merged forest other than the merged sets' root was a root
      before, with the same set. */
  lemma KeptMembers(p: seq<int>, d: seq<nat>, p0: seq<int>, d0: seq<nat>, a: int, b: int, w: int, r: int)
    requires Forest(p, d) && Forest(p0, d0) && |p| == |p0|
    requires w == a || w == b
    requires MergedRoots(p, d, p0, d0, a, b, w)
    requires 0 <= r < |p| && p[r] == r && r != a && r != b
    ensures p0[r] == r
    ensures Members(p, d, r) == Members(p0, d0, r)
  {
    assert Root(p, d, r) == r;
    assert Root(p0, d0, r) == r;
  }

  class UnionFind<T(==)> {
    /** Element to id. */
    var index: map<T, int>
    var parent: seq<int>
    var size: seq<int>
    ghost var dist: seq<nat>

    ghost predicate Valid()
      reads this
    {
      && Forest(parent, dist)
      && |size| == |parent|
      && SizesCount(parent, dist, size)
      && (forall e :: e in index ==> 0 <= index[e] < |parent|)
    }

    /** The root of the set an element belongs to, or nil for an element that
        was never added. */
    ghost function Find(e: T): (r: Option<int>)
      reads this
      requires Valid()
      ensures r.Some? <==> e in index
      ensures r.Some? ==> 0 <= r.value < |parent| && parent[r.value] == r.value
    {
      if e in index then Some(Root(parent, dist, index[e])) else None
    }

    constructor ()
      ensures Valid()
      ensures index == map[] && parent == [] && size == []
    {
      index := map[];
      parent := [];
      size := [];
      dist := [];
    }

    /** `addSetWith(_:)`: gives `element` the next id, a root of a set of size
        1. An element added before is given a new id all the same; its old id
        stays in the forest, unreachable from `index`. */
    method AddSetWith(element: T)
      requires Valid()
      modifies this
      ensures Valid()
      ensures index == old(index)[element := old(|parent|)]
      ensures parent == old(parent) + [old(|parent|)]
      ensures size == old(size) + [1]
      ensures Root(parent, dist, index[element]) == index[element]
      ensures forall j :: 0 <= j < old(|parent|) ==>
        Root(parent, dist, j) == Root(old(parent), old(dist), j)
    {
      ghost var p0, d0 := parent, dist;
      index := index[element := |parent|];
      parent := parent + [|parent|];
      size := size + [1];
      dist := dist + [0];
      forall j | 0 <= j < |p0| ensures Root(parent, dist, j) == Root(p0, d0, j) {
        AppendRootKeepsRoot(p0, d0, j);
      }
      AppendRootSizes(p0, d0, old(size));
    }

    /** `setByIndex(_:)`: the root of id `i`, compressing the path to it. */
    method SetByIndex(i: int) returns (r: int)
      requires Valid() && 0 <= i < |parent|
      modifies this
      ensures Valid()
      ensures r == Root(old(parent), old(dist), i)
      ensures parent == Compress(old(parent), old(dist), i)
      ensures index == old(index) && size == old(size) && dist == old(dist)
      decreases dist[i]
    {
      if i != parent[i] {
        var root := SetByIndex(parent[i]);
        parent := parent[i := root];
        assert parent == Compress(old(parent), dist, i);
        SameRootsKeepSizes(parent, dist, old(parent), dist, size);
      }
      return parent[i];
    }

    /** `setOf(_:)`: the root of the set of `element`, or nil if it was never
        added. No id changes its root. */
    method SetOf(element: T) returns (r: Option<int>)
      requires Valid()
      modifies this
      ensures Valid()
      ensures r == old(Find(element))
      ensures index == old(index) && size == old(size) && dist == old(dist)
      ensures SameRoots(parent, dist, old(parent), dist)
      ensures element !in index ==> parent == old(parent)
    {
      if element in index {
        var root := SetByIndex(index[element]);
        r := Some(root);
      } else {
        r := None;
      }
    }

    /** `unionSetsContaining(_:and:)`. Nothing changes but path compression if
        an element is missing or both are already in one set. Otherwise the
        root with the smaller size is hung under the other (the second root
        under the first on a tie), the surviving root's size becomes the sum,
        the merged ids take the surviving root, and every other id keeps its
        root. */
    method UnionSetsContaining(firstElement: T, secondElement: T)
      requires Valid()
      modifies this
      ensures Valid()
      ensures index == old(index)
      ensures |parent| == old(|parent|)
      ensures (firstElement !in index || secondElement !in index ||
        old(Find(firstElement)) == old(Find(secondElement))) ==>
        size == old(size) && SameRoots(parent, dist, old(parent), old(dist))
      ensures firstElement in index && secondElement in index ==>
        Root(parent, dist, index[firstElement]) == Root(parent, dist, index[secondElement])
      ensures (firstElement in index && secondElement in index &&
        old(Find(firstElement)) != old(Find(secondElement))) ==>
        UnionBySize(old(parent), old(dist), old(size), parent, dist, size,
          old(Find(firstElement)).value, old(Find(secondElement)).value)
    {
      ghost var p0 := parent;
      ghost var fa, fb := Find(firstElement), Find(secondElement);
      var firstSet := SetOf(firstElement);
      if firstSet.None? {
        return;
      }
      ghost var p1 := parent;
      var secondSet := SetOf(secondElement);
      SameRootsTrans(parent, p1, p0, dist);
      if secondSet.None? {
        return;
      }
      var a, b := firstSet.value, secondSet.value;
      assert a == Root(p0, dist, index[firstElement]);
      assert b == Root(p1, dist, index[secondElement]) == Root(p0, dist, index[secondElement]);
      assert fa == Some(a) && fb == Some(b);
      if a != b {
        ghost var p2 := parent;
        Link(a, b);
        UnionFromEarlier(p0, p2, old(dist), old(size), parent, dist, size, a, b);
        MergedRootsJoin(parent, dist, p0, old(dist), a, b, index[firstElement], index[secondElement]);
      }
    }

    /** The body of `unionSetsContaining` once both roots are known and
        differ: union by size. */
    method Link(a: int, b: int)
      requires Valid()
      requires 0 <= a < |parent| && 0 <= b < |parent| && a != b
      requires parent[a] == a && parent[b] == b
      modifies this
      ensures Valid()
      ensures index == old(index)
      ensures UnionBySize(old(parent), old(dist), old(size), parent, dist, size, a, b)
    {
      ghost var p0, d0, s0 := parent, dist, size;
      // The two branches of the source differ only in which root survives.
      var winner, loser := if size[a] < size[b] then b else a, if size[a] < size[b] then a else b;
      dist := LinkRoots(parent, dist, loser, winner);
      parent := parent[loser := winner];
      size := size[winner := size[winner] + size[loser]];
      assert MergedRoots(parent, dist, p0, d0, a, b, winner);
      UnionSizes(p0, d0, s0, parent, dist, size, a, b);
    }

    /** `inSameSet(_:and:)`: false if an element was never added, else whether
        the two have one root. No id changes its root. */
    method InSameSet(firstElement: T, secondElement: T) returns (same: bool)
      requires Valid()
      modifies this
      ensures Valid()
      ensures same <==>
        firstElement in old(index) && secondElement in old(index) &&
        old(Find(firstElement)) == old(Find(secondElement))
      ensures index == old(index) && size == old(size) && dist == old(dist)
      ensures SameRoots(parent, dist, old(parent), dist)
    {
      var firstSet := SetOf(firstElement);
      if firstSet.None? {
        return false;
      }
      var secondSet := SetOf(secondElement);
      if secondSet.None? {
        return false;
      }
      return firstSet.value == secondSet.value;
    }
  }

  /** Union by size of the distinct roots `a` and `b`, from the forest `p0`
      with sizes `size0` to `p` with `size`: the root of the smaller set (of
      `b`'s set on a tie) is hung under the other, whose size becomes the sum,
      and the two sets merge under it. */
  ghost predicate UnionBySize(p0: seq<int>, d0: seq<nat>, size0: seq<int>, p: seq<int>, d: seq<nat>, size: seq<int>, a: int, b: int) {
    var winner := if 0 <= a < |size0| && 0 <= b < |size0| && size0[a] < size0[b] then b else a;
    var loser := if winner == b then a else b;
    && Forest(p0, d0) && Forest(p, d) && |p| == |p0| == |size0|
    && 0 <= a < |p| && 0 <= b < |p| && a != b
    && p[loser] == winner
    && size == size0[winner := size0[a] + size0[b]]
    && MergedRoots(p, d, p0, d0, a, b, winner)
  }

  /** A union by size after steps that kept every root is a union by size
      relative to the state before those steps. */
  lemma UnionFromEarlier(p0: seq<int>, p2: seq<int>, d0: seq<nat>, size0: seq<int>,
                         p: seq<int>, d: seq<nat>, size: seq<int>, a: int, b: int)
    requires Forest(p0, d0) && Forest(p2, d0) && |p0| == |p2|
    requires SameRoots(p2, d0, p0, d0)
    requires UnionBySize(p2, d0, size0, p, d, size, a, b)
    ensures UnionBySize(p0, d0, size0, p, d, size, a, b)
  {
  }

  /** After a merge, ids whose roots were the two merged roots share a root. */
  lemma MergedRootsJoin(p: seq<int>, d: seq<nat>, p0: seq<int>, d0: seq<nat>, a: int, b: int, i: int, j: int)
    requires Forest(p, d) && Forest(p0, d0) && |p| == |p0|
    requires 0 <= i < |p| && 0 <= j < |p|
    requires Root(p0, d0, i) == a && Root(p0, d0, j) == b
    requires exists w :: MergedRoots(p, d, p0, d0, a, b, w)
    ensures Root(p, d, i) == Root(p, d, j)
  {
  }

  lemma SameRootsTrans(p: seq<int>, p1: seq<int>, p0: seq<int>, d: seq<nat>)
    requires Forest(p, d) && Forest(p1, d) && Forest(p0, d) && |p| == |p1| == |p0|
    requires SameRoots(p, d, p1, d) && SameRoots(p1, d, p0, d)
    ensures SameRoots(p, d, p0, d)
  {
  }
}
